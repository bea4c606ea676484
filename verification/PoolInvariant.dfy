/** The buffer pool is invisible to its client and obeys WAL #1: the invariant of the whole
    engine and its preservation by reads, writes, allocations, evictions and flushes. */
module PoolInvariant {
  import opened Pages
  import opened Log
  import opened Engine
  import opened CoreInvariant
  import opened Pool

  /** What a client sees: the frame if there is one, else the page on disk. */
  function Logical(s: Sys, k: PageKey): Bytes {
    if k in s.frames then s.frames[k] else DiskPage(s.core.files, s.core.cfg.pageSize, k)
  }

  /** The replay of everything logged for the page. */
  function Current(c: Core, k: PageKey): Bytes {
    Replay(Upd(FullLog(c), k), Zeros(c.cfg.pageSize))
  }

  ghost predicate Content(s: Sys, k: PageKey) {
    && Logical(s, k) == Current(s.core, k)
    && (k in s.frames && !IsDirty(s, k) ==> DiskPage(s.core.files, s.core.cfg.pageSize, k) == s.frames[k])
  }

  predicate Placed(c: Core, k: PageKey) {
    ValidFileId(k.file) && k.pid <= NumPages(c, k.file)
  }

  /** The engine invariant, except that the pages in `x` are being changed. */
  ghost predicate SysInvBut(s: Sys, x: set<PageKey>) {
    && Inv(s.core) && TxInv(s.core) && FramesOk(s)
    && (forall k :: k in s.frames ==> Placed(s.core, k))
    && forall k :: k !in x ==> Content(s, k)
  }

  ghost predicate SysInv(s: Sys) {
    SysInvBut(s, {})
  }

  // ---------------------------------------------------------------- page writes

  lemma PutPageEffect(files: Files, ps: nat, k: PageKey, data: Bytes, j: PageKey)
    requires k.file in files
    ensures DiskPage(PutPage(files, ps, k, data), ps, j) == if j == k then data else DiskPage(files, ps, j)
  {
  }

  predicate WholeHistory(c: Core, k: PageKey, data: Bytes) {
    |data| == c.cfg.pageSize && data == Current(c, k) && Upd(c.wal, k) == Upd(FullLog(c), k)
  }

  /** A page that holds its whole history need not be in the dirty page table. */
  lemma WrittenPage(c: Core, c': Core, k: PageKey, data: Bytes, j: PageKey)
    requires RunPage(c, j) && k.file in c.files && WholeHistory(c, k, data)
    requires c' == c.(files := PutPage(c.files, c.cfg.pageSize, k, data), numPages := c'.numPages,
                      hist := c'.hist, dpt := c'.dpt)
    requires c'.dpt == c.dpt || c'.dpt == c.dpt - {k}
    ensures RunPage(c', j)
  {
    hide PutPage, DiskPage, Replay, Upd, CkptOk;
    PutPageEffect(c.files, c.cfg.pageSize, k, data, j);
    var n: nat :| RunHolds(c, j, n);
    if j == k {
      var us := Upd(FullLog(c), k);
      assert us[..|us|] == us;
      NothingMissing(FullLog(c), k);
      assert RunHolds(c', k, |us|);
    } else {
      assert RunHolds(c', j, n);
    }
  }

  lemma NothingMissing(log: seq<Rec>, k: PageKey)
    ensures CkptOk(log, k, |Upd(log, k)|)
  {
  }

  lemma WrittenFile(c: Core, k: PageKey, data: Bytes)
    requires FilePart(c) && k.file in c.files && WholeHistory(c, k, data)
    ensures FilePart(RawWrite(c, k, data))
  {
  }

  lemma RawWriteInv(c: Core, k: PageKey, data: Bytes)
    requires Inv(c) && k.file in c.files && WholeHistory(c, k, data)
    ensures Inv(RawWrite(c, k, data)) && Inv(PageFlushed(RawWrite(c, k, data), k))
  {
    hide RunPage, CrashInv, FilePart, LogPart, PutPage, WholeHistory;
    var c2 := RawWrite(c, k, data);
    var c1 := c2.(hist := c.hist);
    assert c2 == Mark(c1);
    WrittenFile(c, k, data);
    LogPartKept(c, c1, k);
    LogPartKept(c, PageFlushed(c2, k), k);
    forall j ensures RunPage(c1, j) && RunPage(PageFlushed(c2, k), j) {
      WrittenPage(c, c1, k, data, j);
      WrittenPage(c, PageFlushed(c2, k), k, data, j);
    }
    FilePartOf(c2, c1);
    FilePartOf(c2, PageFlushed(c2, k));
    MarkInv(c1);
  }

  lemma LogPartKept(c: Core, c': Core, k: PageKey)
    requires LogPart(c) && (c'.dpt == c.dpt || c'.dpt == c.dpt - {k})
    requires c' == c.(files := c'.files, numPages := c'.numPages, hist := c'.hist, dpt := c'.dpt)
    ensures LogPart(c')
  {
    hide LogInv;
  }

  lemma RawWriteGrows(c: Core, k: PageKey, data: Bytes)
    requires k.file in c.files
    ensures Grows(c, PageFlushed(RawWrite(c, k, data), k))
  {
  }

  lemma FilePartOf(c: Core, c': Core)
    requires FilePart(c) && c'.cfg == c.cfg && c'.files == c.files && c'.numPages == c.numPages
    ensures FilePart(c')
  {
  }

  lemma CreateFileInv(c: Core, f: string)
    requires Inv(c)
    ensures var c' := CreateFile(c, f);
            && Inv(c') && FullLog(c') == FullLog(c) && f in c'.files && Grows(c, c')
            && c' == c.(files := c'.files, numPages := c'.numPages, hist := c'.hist)
            && (forall g :: NumPages(c', g) == NumPages(c, g))
            && forall k :: DiskPage(c'.files, c.cfg.pageSize, k) == DiskPage(c.files, c.cfg.pageSize, k)
  {
    hide CrashInv, LogPart, FilePart, RunPage, DiskPage, FullLog;
    if f !in c.files {
      var c1 := c.(files := c.files[f := []], numPages := c.numPages[f := 0]);
      SameLogPart(c, c1);
      FileAdded(c, f);
      forall k ensures RunPage(c1, k) && DiskPage(c1.files, c.cfg.pageSize, k) == DiskPage(c.files, c.cfg.pageSize, k) {
        BlankFileReads(c.files, c.cfg.pageSize, f, k);
        SameRunPage(c, c1, k);
      }
      MarkInv(c1);
      SameLogPart(c, Mark(c1));
    }
  }

  lemma SameLogPart(c: Core, c': Core)
    requires LogPart(c) && c' == c.(files := c'.files, numPages := c'.numPages, hist := c'.hist)
    ensures LogPart(c') && FullLog(c') == FullLog(c)
  {
    hide LogInv, DptBelow;
  }

  lemma FileAdded(c: Core, f: string)
    requires FilePart(c) && f !in c.files
    ensures var c' := c.(files := c.files[f := []], numPages := c.numPages[f := 0]);
            FilePart(c') && forall g :: NumPages(c', g) == NumPages(c, g)
  {
    assert f !in c.numPages.Keys;
  }

  lemma BlankFileReads(files: Files, ps: nat, f: string, k: PageKey)
    requires f !in files
    ensures DiskPage(files[f := []], ps, k) == DiskPage(files, ps, k)
  {
  }

  /** A page that reads as before holds what it held. */
  lemma SameRunPage(c: Core, c': Core, k: PageKey)
    requires RunPage(c, k) && c' == c.(files := c'.files, numPages := c'.numPages, hist := c'.hist)
    requires DiskPage(c'.files, c.cfg.pageSize, k) == DiskPage(c.files, c.cfg.pageSize, k)
    ensures RunPage(c', k)
  {
    hide CkptOk, DptCovers, DiskPage, Replay;
    var n: nat :| RunHolds(c, k, n);
    assert RunHolds(c', k, n);
  }

  lemma DurableUpTo(c: Core, k: PageKey)
    requires Live(c) && (Upd(FullLog(c), k) != [] ==> Last(Upd(FullLog(c), k)).lsn <= c.flushedLsn)
    ensures Upd(c.wal, k) == Upd(FullLog(c), k)
  {
    var log := FullLog(c);
    var us := Upd(log, k);
    PrefixViews(log, |c.wal|, k);
    assert log[..|c.wal|] == c.wal;
    if us != [] {
      var i := UpdIndex(log, k, |us| - 1);
      if i >= |c.wal| {
        LsnsIncrease(log, |c.wal| - 1, i, c.cfg.pageSize);
      }
      UpdAt(log, i);
      UpdCountMonotone(log, i + 1, |c.wal|, k);
    }
  }

  /** WAL #1: once the log is flushed up to its pageLSN, everything logged for a page is durable. */
  lemma WalFirst(c: Core, k: PageKey)
    requires Inv(c)
    ensures var c1 := FlushLogUpTo(c, PageLsn(Current(c, k)));
            && Quiet(c, c1) && FullLog(c1) == FullLog(c) && Upd(c1.wal, k) == Upd(FullLog(c), k)
            && (Upd(FullLog(c), k) != [] ==> PageLsn(Current(c, k)) <= c1.flushedLsn)
            && c1 == c.(wal := c1.wal, hist := c1.hist, flushedLsn := c1.flushedLsn, logBuf := c1.logBuf)
  {
    hide FilePart, HistPart, RunPage, LogInv, Upd, FlushLog, PageLsn, Replay, DptBelow, Grows;
    var us := Upd(FullLog(c), k);
    QuietFlush(c);
    QuietSelf(c);
    assert us[..|us|] == us;
    ReplayLsn(FullLog(c), k, |us|, c.cfg.pageSize);
    if PageLsn(Current(c, k)) <= c.flushedLsn {
      DurableUpTo(c, k);
    } else if us != [] {
      var i := UpdIndex(FullLog(c), k, |us| - 1);
      if i < |FullLog(c)| - 1 {
        LsnsIncrease(FullLog(c), i, |FullLog(c)| - 1, c.cfg.pageSize);
      }
    }
  }

  /** And only then is the log forced: an eviction leaves the buffer alone where the page's updates are durable already,
      or where the page has none and something is durable. */
  lemma ForcedWhenNeeded(c: Core, k: PageKey)
    requires Inv(c) && c.logBuf != []
    ensures WriteBack(c, k, Current(c, k)).0.wal == c.wal
       <==> Upd(c.wal, k) == Upd(FullLog(c), k) && (Upd(FullLog(c), k) != [] || c.wal != [])
  {
    hide FilePart, HistPart, RunPage, LogInv, Upd, PageLsn, Replay, DptBelow;
    var us := Upd(FullLog(c), k);
    assert us[..|us|] == us;
    ReplayLsn(FullLog(c), k, |us|, c.cfg.pageSize);
    PageSizeOk(c);
    FlushMoves(c, k, Current(c, k));
    if us != [] {
      if PageLsn(Current(c, k)) <= c.flushedLsn {
        DurableUpTo(c, k);
      } else if Upd(c.wal, k) == us {
        DurableLsn(c, k);
      }
    } else {
      PrefixViews(FullLog(c), |c.wal|, k);
      assert FullLog(c)[..|c.wal|] == c.wal;
      if c.wal != [] {
        RecAt(FullLog(c), |c.wal| - 1, c.cfg.pageSize);
      }
    }
  }

  lemma FlushMoves(c: Core, k: PageKey, data: Bytes)
    requires c.logBuf != [] && |data| >= HEADER_SIZE
    ensures WriteBack(c, k, data).0.wal == c.wal <==> PageLsn(data) <= c.flushedLsn
  {
    hide PageLsn, PutPage, AppendStates;
    assert |c.wal + c.logBuf| > |c.wal|;
  }

  /** A durable update has a durable LSN. */
  lemma DurableLsn(c: Core, k: PageKey)
    requires LogPart(c) && Upd(c.wal, k) == Upd(FullLog(c), k) != []
    ensures Last(Upd(FullLog(c), k)).lsn <= c.flushedLsn
  {
    hide LogInv, Upd;
    var us, ps := Upd(c.wal, k), c.cfg.pageSize;
    var i := UpdIndex(c.wal, k, |us| - 1);
    assert FullLog(c)[i] == c.wal[i] && FullLog(c)[|c.wal| - 1] == Last(c.wal);
    if i < |c.wal| - 1 {
      LsnsIncrease(FullLog(c), i, |c.wal| - 1, ps);
    }
  }

  lemma QuietSelf(c: Core)
    requires Inv(c)
    ensures Quiet(c, c)
  {
    hide Inv;
  }

  /** Transition of the core in which only whole pages were written. */
  ghost predicate PagesWritten(c: Core, c': Core) {
    && Inv(c') && TxInv(c') && Grows(c, c')
    && FullLog(c') == FullLog(c)
    && c'.tx == c.tx && c'.nextXid == c.nextXid && c'.nextLsn == c.nextLsn
    && forall f :: NumPages(c', f) >= NumPages(c, f)
  }

  lemma PagesWrittenThen(c: Core, c1: Core, c2: Core)
    requires PagesWritten(c, c1) && PagesWritten(c1, c2)
    ensures PagesWritten(c, c2)
  {
    hide Inv, TxInv, FullLog, NumPages;
    GrowsThen(c, c1, c2);
    forall f ensures NumPages(c2, f) >= NumPages(c, f) {
      assert NumPages(c1, f) >= NumPages(c, f);
    }
  }

  /** The entry of page k is gone, and all others are as they were. */
  ghost predicate Dropped(dpt: map<PageKey, nat>, dpt': map<PageKey, nat>, k: PageKey) {
    k !in dpt' && forall j :: j != k ==> (j in dpt' <==> j in dpt) && (j in dpt ==> dpt'[j] == dpt[j])
  }

  /** A page that reached the disk leaves the dirty page table. */
  lemma WriteBackDrops(c: Core, k: PageKey, data: Bytes)
    requires |data| >= HEADER_SIZE
    ensures var (c', ok) := WriteBack(c, k, data); if ok then Dropped(c.dpt, c'.dpt, k) else c'.dpt == c.dpt
  {
    hide PutPage, PageLsn, AppendStates;
  }

  /** Writing back a current page succeeds, takes it out of the dirty page table and changes no other page. */
  lemma WriteBackInv(c: Core, k: PageKey)
    requires Inv(c) && TxInv(c) && Placed(c, k)
    ensures var (c', ok) := WriteBack(c, k, Current(c, k));
            && ok && PagesWritten(c, c') && k.pid < NumPages(c', k.file) && Dropped(c.dpt, c'.dpt, k)
            && forall j :: DiskPage(c'.files, c.cfg.pageSize, j) ==
                           if j == k then Current(c, k) else DiskPage(c.files, c.cfg.pageSize, j)
  {
    hide Inv, FlushLogUpTo, CreateFile, RawWrite, DiskPage, TxOk, Upd, Replay, Grows, FullLog, PageLsn, PagesWritten, NumPages;
    var data := Current(c, k);
    PageSizeOk(c);
    CurrentSize(c, k);
    WriteBackDrops(c, k, data);
    var c2 := CreateFile(FlushLogUpTo(c, PageLsn(data)), k.file);
    FlushedThrough(c, k);
    RawWritten(c2, k, data);
    PagesWrittenThen(c, c2, PageFlushed(RawWrite(c2, k, data), k));
  }

  /** The file is there and everything logged for the page durable. */
  lemma FlushedThrough(c: Core, k: PageKey)
    requires Inv(c) && TxInv(c)
    ensures var c2 := CreateFile(FlushLogUpTo(c, PageLsn(Current(c, k))), k.file);
            && Inv(c2) && TxInv(c2) && PagesWritten(c, c2) && c2.cfg == c.cfg && k.file in c2.files && NumPages(c2, k.file) == NumPages(c, k.file)
            && WholeHistory(c2, k, Current(c, k))
            && forall j :: DiskPage(c2.files, c.cfg.pageSize, j) == DiskPage(c.files, c.cfg.pageSize, j)
  {
    hide Inv, FlushLogUpTo, CreateFile, DiskPage, TxOk, Upd, Replay, PageLsn, Zeros, Grows;
    PageSizeOk(c);
    WalFirst(c, k);
    var c1 := FlushLogUpTo(c, PageLsn(Current(c, k)));
    CreateFileInv(c1, k.file);
    GrowsThen(c, c1, CreateFile(c1, k.file));
  }

  lemma RawWritten(c: Core, k: PageKey, data: Bytes)
    requires Inv(c) && TxInv(c) && k.file in c.files && WholeHistory(c, k, data)
    ensures var c' := PageFlushed(RawWrite(c, k, data), k);
            && PagesWritten(c, c') && c'.cfg == c.cfg && k.pid < NumPages(c', k.file)
            && forall j :: DiskPage(c'.files, c.cfg.pageSize, j) == if j == k then data else DiskPage(c.files, c.cfg.pageSize, j)
  {
    hide Inv, PutPage, DiskPage, TxOk, WholeHistory, Grows;
    RawWriteInv(c, k, data);
    RawWriteGrows(c, k, data);
    forall j ensures DiskPage(RawWrite(c, k, data).files, c.cfg.pageSize, j)
                     == if j == k then data else DiskPage(c.files, c.cfg.pageSize, j) {
      PutPageEffect(c.files, c.cfg.pageSize, k, data, j);
    }
  }

  // ---------------------------------------------------------------- frames

  lemma {:induction false} WithoutEffect(order: seq<PageKey>, k: PageKey)
    requires NoDup(order)
    ensures var r := Without(order, k);
            && NoDup(r)
            && (forall j :: j in r <==> j in order && j != k)
            && |r| == if k in order then |order| - 1 else |order|
  {
    if order != [] && order[0] != k {
      WithoutEffect(order[1..], k);
      var r := Without(order[1..], k);
      assert forall j :: j in order <==> j == order[0] || j in order[1..];
      assert order[0] !in r;
    }
  }

  lemma DropFrameOk(s: Sys, k: PageKey)
    requires FramesOk(s) && k in s.frames
    ensures FramesOk(DropFrame(s, k)) && |DropFrame(s, k).order| == |s.order| - 1
  {
    WithoutEffect(s.order, k);
  }

  lemma PutFrameOk(s: Sys, k: PageKey, data: Bytes, isDirty: bool)
    requires FramesOk(s) && |data| == s.core.cfg.pageSize && (k in s.frames || |s.order| < s.poolSize)
    ensures FramesOk(PutFrame(s, k, data, isDirty))
  {
    var order := PutFrame(s, k, data, isDirty).order;
    assert k in order && forall j :: j in order <==> j in s.order || j == k;
  }

  lemma TouchOk(s: Sys, k: PageKey)
    requires FramesOk(s) && k in s.frames
    ensures FramesOk(s.(order := Touch(s.order, k)))
  {
    WithoutEffect(s.order, k);
  }

  ghost predicate SameStore(s: Sys, s': Sys) {
    forall k :: Logical(s', k) == Logical(s, k)
  }

  /** The core may grow its log and write current pages without disturbing any frame. */
  lemma ContentAfter(s: Sys, s': Sys, k: PageKey)
    requires Content(s, k) && Logical(s', k) == Logical(s, k) && Current(s'.core, k) == Current(s.core, k)
    requires k in s'.frames && !IsDirty(s', k) ==> DiskPage(s'.core.files, s'.core.cfg.pageSize, k) == s'.frames[k]
    ensures Content(s', k)
  {
  }

  ghost predicate DiskHolds(c: Core, c': Core, v: PageKey, data: Bytes) {
    forall j :: DiskPage(c'.files, c.cfg.pageSize, j) == if j == v then data else DiskPage(c.files, c.cfg.pageSize, j)
  }

  lemma NothingWritten(s: Sys, x: set<PageKey>, v: PageKey)
    requires SysInvBut(s, x) && v in s.frames && v !in x && !IsDirty(s, v)
    ensures PagesWritten(s.core, s.core) && DiskHolds(s.core, s.core, v, s.frames[v])
  {
    assert Content(s, v);
  }

  /** A frame whose content is on disk may go. */
  lemma DropInv(s: Sys, c: Core, x: set<PageKey>, v: PageKey)
    requires SysInvBut(s, x) && v in s.frames && v !in x
    requires PagesWritten(s.core, c) && DiskHolds(s.core, c, v, s.frames[v])
    ensures SysInvBut(DropFrame(s.(core := c), v), x) && SameStore(s, DropFrame(s.(core := c), v))
  {
    hide Inv, TxInv, FullLog, NumPages, Current, Without;
    SameLog(s.core, c);
    var s' := DropFrame(s.(core := c), v);
    DropFrameOk(s.(core := c), v);
    forall k ensures Logical(s', k) == Logical(s, k) {
    }
    forall k | k !in x ensures Content(s', k) {
      assert Content(s, k);
      ContentAfter(s, s', k);
    }
    forall k | k in s'.frames ensures Placed(c, k) {
      assert Placed(s.core, k);
      assert NumPages(c, k.file) >= NumPages(s.core, k.file);
    }
  }

  /** Evicting a frame changes nothing the client can see. */
  lemma MakeRoomInv(s: Sys, x: set<PageKey>)
    requires SysInvBut(s, x) && forall k :: k in x ==> k !in s.frames
    ensures var (s', ok) := MakeRoom(s);
            && ok && SysInvBut(s', x) && SameStore(s, s') && |s'.order| < s'.poolSize
            && PagesWritten(s.core, s'.core)
            && (forall k :: k in s'.frames ==> k in s.frames)
            && s' == s.(core := s'.core, order := s'.order, frames := s'.frames, dirty := s'.dirty)
  {
    hide Inv, TxInv, TxOk, DiskPage, FullLog, WriteBack, Grows;
    if |s.order| >= s.poolSize {
      var v := VictimOf(s.policy, s.order);
      assert v in s.order && Content(s, v);
      var c := if IsDirty(s, v) then WriteBack(s.core, v, s.frames[v]).0 else s.core;
      if IsDirty(s, v) {
        WriteBackInv(s.core, v);
      } else {
        NothingWritten(s, x, v);
      }
      DropInv(s, c, x, v);
      DropFrameOk(s.(core := c), v);
    } else {
      assert PagesWritten(s.core, s.core) by {
        PagesWrittenSelf(s.core);
      }
    }
  }

  lemma PagesWrittenSelf(c: Core)
    requires Inv(c) && TxInv(c)
    ensures PagesWritten(c, c)
  {
  }

  lemma SameLog(c: Core, c': Core)
    requires PagesWritten(c, c')
    ensures c'.cfg == c.cfg && forall k :: Current(c', k) == Current(c, k)
  {
  }

  // ---------------------------------------------------------------- reads

  /** What the buffer manager accepts is what the disk manager will: a whole page of a safe file, all pages before which
      can be read. */
  lemma WriteAccepted(c: Core, k: PageKey, data: Bytes)
    requires c.files.Keys == c.numPages.Keys
    ensures ValidWrite(c, k, data) <==> DiskWrite(c, k, data).1
    ensures ValidWrite(c, k, data)
       <==> ValidFileId(k.file) && |data| == c.cfg.pageSize && forall p: nat :: p < k.pid ==> DiskRead(c, PageKey(k.file, p)).Some?
  {
    hide RawWrite, DiskPage;
    if k.pid > 0 {
      assert DiskRead(c, PageKey(k.file, k.pid - 1)).Some? <==> FileExists(c, k.file) && k.pid - 1 < NumPages(c, k.file);
    }
  }

  predicate Readable(s: Sys, k: PageKey) {
    k in s.frames || (FileExists(s.core, k.file) && k.pid < NumPages(s.core, k.file))
  }

  /** Caching a page as it is on disk. */
  lemma PutCleanInv(s: Sys, k: PageKey, data: Bytes)
    requires SysInv(s) && k !in s.frames && Placed(s.core, k) && |s.order| < s.poolSize
    requires data == DiskPage(s.core.files, s.core.cfg.pageSize, k)
    ensures SysInv(PutFrame(s, k, data, false)) && SameStore(s, PutFrame(s, k, data, false))
  {
    hide Inv, TxInv, DiskPage, Current, NumPages, FramesOk, Placed;
    var s' := PutFrame(s, k, data, false);
    assert Content(s, k);
    CurrentSize(s.core, k);
    PutFrameOk(s, k, data, false);
    forall j ensures Content(s', j) {
      assert Content(s, j);
    }
  }

  lemma CurrentSize(c: Core, k: PageKey)
    ensures |Current(c, k)| == c.cfg.pageSize
  {
  }

  /** A read returns the logical page and changes nothing the client can see. */
  lemma GetPageInv(s: Sys, k: PageKey)
    requires SysInv(s)
    ensures var (s', r) := GetPage(s, k);
            && SysInv(s') && SameStore(s, s') && PagesWritten(s.core, s'.core)
            && r == (if Readable(s, k) then Some(Logical(s, k)) else None)
            && s' == s.(core := s'.core, order := s'.order, frames := s'.frames, dirty := s'.dirty)
  {
    hide Inv, TxInv, DiskPage, FullLog, MakeRoom, Grows, Current;
    PagesWrittenSelf(s.core);
    if k in s.frames {
      TouchOk(s, k);
      TouchedInv(s, k);
    } else if Readable(s, k) {
      MakeRoomInv(s, {});
      var s1 := MakeRoom(s).0;
      assert Logical(s1, k) == Logical(s, k);
      assert NumPages(s1.core, k.file) >= NumPages(s.core, k.file);
      PutCleanInv(s1, k, Logical(s, k));
      SameStoreThen(s, s1, PutFrame(s1, k, Logical(s, k), false));
    }
  }

  lemma TouchedInv(s: Sys, k: PageKey)
    requires SysInv(s) && k in s.frames
    ensures SysInv(s.(order := Touch(s.order, k))) && SameStore(s, s.(order := Touch(s.order, k)))
  {
    hide Inv, TxInv, DiskPage, Current;
    TouchOk(s, k);
    var s' := s.(order := Touch(s.order, k));
    forall j ensures Content(s', j) {
      assert Content(s, j);
    }
  }

  lemma SameStoreThen(s: Sys, s1: Sys, s2: Sys)
    requires SameStore(s, s1) && SameStore(s1, s2)
    ensures SameStore(s, s2)
  {
    forall k ensures Logical(s2, k) == Logical(s, k) {
      assert Logical(s1, k) == Logical(s, k);
    }
  }

  // ---------------------------------------------------------------- writes

  /** Caching new content of the one page that was being changed: right exactly when it is what was logged. */
  lemma PutDirtyInv(s: Sys, k: PageKey, data: Bytes)
    requires SysInvBut(s, {k}) && Placed(s.core, k) && |data| == s.core.cfg.pageSize
    requires k in s.frames || |s.order| < s.poolSize
    ensures SysInvBut(PutFrame(s, k, data, true), {k})
    ensures SysInv(PutFrame(s, k, data, true)) <==> data == Current(s.core, k)
    ensures forall j :: Logical(PutFrame(s, k, data, true), j) == if j == k then data else Logical(s, j)
  {
    hide Inv, TxInv, DiskPage, NumPages, Current, FramesOk, Placed, Content;
    PutFrameOk(s, k, data, true);
    var s' := PutFrame(s, k, data, true);
    forall j ensures Content(s', j) <==> if j == k then data == Current(s.core, k) else Content(s, j) {
      FrameContent(s, k, data, j);
    }
    assert Content(s', k) <==> data == Current(s.core, k);
  }

  lemma FrameContent(s: Sys, k: PageKey, data: Bytes, j: PageKey)
    ensures Content(PutFrame(s, k, data, true), j) <==> if j == k then data == Current(s.core, k) else Content(s, j)
  {
    hide DiskPage, Current;
  }

  lemma StoreFrameInv(s: Sys, k: PageKey, data: Bytes)
    requires SysInvBut(s, {k}) && Placed(s.core, k) && data == Current(s.core, k)
    ensures var (s', r) := StoreFrame(s, k, data);
            && r == Some(data) && SysInv(s') && PagesWritten(s.core, s'.core)
            && (forall j :: Logical(s', j) == if j == k then data else Logical(s, j))
            && s' == s.(core := s'.core, order := s'.order, frames := s'.frames, dirty := s'.dirty)
  {
    hide Inv, TxInv, DiskPage, FullLog, MakeRoom, Grows, Current;
    PagesWrittenSelf(s.core);
    CurrentSize(s.core, k);
    if k in s.frames {
      PutDirtyInv(s, k, data);
      TouchedInv(PutFrame(s, k, data, true), k);
    } else {
      MakeRoomInv(s, {k});
      var s1 := MakeRoom(s).0;
      SameLog(s.core, s1.core);
      assert NumPages(s1.core, k.file) >= NumPages(s.core, k.file);
      PutDirtyInv(s1, k, data);
    }
  }

  /** The before-image handed to the log is the current page. */
  lemma BeforeIsCurrent(s: Sys, k: PageKey)
    requires SysInv(s) && ValidFileId(k.file)
    ensures BeforeImage(CurrentBytes(s, k), s.core.cfg.pageSize) == Current(s.core, k)
  {
    hide TxInv, HistPart, LogPart, RunPage, Current;
    assert Content(s, k);
    CurrentSize(s.core, k);
    var p := Current(s.core, k);
    assert p[..|p|] == p;
  }

  /** The pages of a core whose log grew by one update of `k`. */
  lemma LoggedInv(s: Sys, c: Core, k: PageKey, page: Bytes)
    requires SysInv(s) && PageLogged(s.core, c, k, page)
    ensures SysInvBut(s.(core := c), {k}) && Current(c, k) == page
    ensures forall j :: Logical(s.(core := c), j) == Logical(s, j)
  {
    hide Inv, TxInv, DiskPage, FullLog;
    forall j | j != k ensures Content(s.(core := c), j) {
      assert Content(s, j);
    }
  }

  predicate MayWrite(c: Core, xid: int) {
    xid in c.tx && c.tx[xid].status == Active && 0 <= xid < c.nextXid && c.nextLsn < LSN_LIMIT
  }

  /** A logged write stamps the page, replaces it in the store and touches no other page. */
  lemma WritePageInv(s: Sys, xid: int, k: PageKey, data: Bytes)
    requires SysInv(s) && MayWrite(s.core, xid) && Listable(k.file)
    ensures var (s', r) := WritePage(s, Some(xid), k, data);
            && SysInv(s') && Grows(s.core, s'.core)
            && r == (if ValidWrite(s.core, k, data) then Some(Stamp(data, s.core.nextLsn)) else None)
            && (forall j :: Logical(s', j) == if r.Some? && j == k then r.value else Logical(s, j))
            && s'.poolSize == s.poolSize && s'.policy == s.policy
  {
    hide TxInv, HistPart, LogPart, RunPage, DiskPage, FullLog, LogPageUpdate, StoreFrame, BeforeImage, Current, Stamp, CurrentBytes;
    if ValidWrite(s.core, k, data) {
      BeforeIsCurrent(s, k);
      LogPageUpdateInv(s.core, xid, k, CurrentBytes(s, k), data) by {
        CurrentDef(s.core, k);
      }
      var (c, page) := LogPageUpdate(s.core, Some(xid), k, CurrentBytes(s, k), data);
      LoggedInv(s, c, k, page);
      assert Placed(c, k);
      StoreFrameInv(s.(core := c), k, page);
      GrowsThen(s.core, c, StoreFrame(s.(core := c), k, page).0.core);
    }
  }

  lemma CurrentDef(c: Core, k: PageKey)
    ensures Current(c, k) == Replay(Upd(FullLog(c), k), Zeros(c.cfg.pageSize))
  {
  }

  /** A write outside a transaction is not logged and not stamped: the store takes it as it is, and the invariant
      survives exactly when it changes nothing. */
  lemma UnloggedWrite(s: Sys, k: PageKey, data: Bytes)
    requires SysInv(s) && ValidWrite(s.core, k, data)
    ensures var (s', r) := WritePage(s, None, k, data);
            && r == Some(data) && FullLog(s'.core) == FullLog(s.core) && s'.core.tx == s.core.tx
            && s'.core.nextLsn == s.core.nextLsn
            && (forall j :: Logical(s', j) == if j == k then data else Logical(s, j))
            && (SysInv(s') <==> data == Current(s.core, k))
  {
    hide Inv, TxInv, DiskPage, FullLog, MakeRoom, Grows, Current, Content;
    AnyBut(s, k);
    if k in s.frames {
      PutDirtyInv(s, k, data);
      TouchDirty(s, k, data);
    } else {
      MakeRoomInv(s, {k});
      var s1 := MakeRoom(s).0;
      SameLog(s.core, s1.core);
      assert NumPages(s1.core, k.file) >= NumPages(s.core, k.file);
      PutDirtyInv(s1, k, data);
    }
  }

  lemma AnyBut(s: Sys, k: PageKey)
    requires SysInv(s)
    ensures SysInvBut(s, {k})
  {
    hide Inv, TxInv, Content, Placed;
  }

  /** The order of the frames does not matter to the invariant. */
  lemma TouchDirty(s: Sys, k: PageKey, data: Bytes)
    requires SysInv(s) && k in s.frames && |data| == s.core.cfg.pageSize
    ensures var s1 := PutFrame(s, k, data, true); var s2 := s1.(order := Touch(s.order, k));
            && (SysInv(s2) <==> SysInv(s1)) && (forall j :: Logical(s2, j) == Logical(s1, j)) && s1.order == s.order
  {
    hide Inv, TxInv, DiskPage, Current;
    var s1 := PutFrame(s, k, data, true);
    var s2 := s1.(order := Touch(s.order, k));
    PutFrameOk(s, k, data, true);
    TouchOk(s1, k);
    forall j ensures Content(s2, j) <==> Content(s1, j) {
    }
  }

  // ---------------------------------------------------------------- allocation

  lemma ReservePage(c: Core, f: string)
    requires Inv(c) && f in c.numPages
    ensures var c' := c.(numPages := c.numPages[f := NumPages(c, f) + 1]);
            && Inv(c') && FullLog(c') == FullLog(c)
            && DiskPage(c.files, c.cfg.pageSize, PageKey(f, NumPages(c, f))) == Zeros(c.cfg.pageSize)
  {
    hide CrashInv, RunPage, LogPart;
    var c' := c.(numPages := c.numPages[f := NumPages(c, f) + 1]);
    SameLogPart(c, c');
    forall k ensures RunPage(c', k) {
      SameRunPage(c, c', k);
    }
  }

  lemma DiskAllocateCore(c: Core, f: string)
    requires Inv(c) && TxInv(c)
    ensures var (c', pid) := DiskAllocate(c, f);
            && PagesWritten(c, c') && pid == NumPages(c, f) && NumPages(c', f) == pid + 1 && c'.cfg == c.cfg
            && DiskPage(c.files, c.cfg.pageSize, PageKey(f, pid)) == Zeros(c.cfg.pageSize)
            && (forall k :: DiskPage(c'.files, c.cfg.pageSize, k) == DiskPage(c.files, c.cfg.pageSize, k))
  {
    hide HistPart, LogPart, RunPage, TxOk, DiskPage;
    CreateFileInv(c, f);
    var c1 := if f in c.numPages then c else CreateFile(c, f);
    ReservePage(c1, f);
  }

  lemma DiskAllocateInv(s: Sys, f: string)
    requires SysInv(s)
    ensures var (c, pid) := DiskAllocate(s.core, f);
            && SysInv(s.(core := c)) && SameStore(s, s.(core := c)) && PagesWritten(s.core, c)
            && pid == NumPages(s.core, f) && NumPages(c, f) == pid + 1
            && DiskPage(c.files, c.cfg.pageSize, PageKey(f, pid)) == Zeros(c.cfg.pageSize)
            && c.cfg == s.core.cfg
  {
    hide Inv, TxInv, FullLog, NumPages, Current, DiskPage, DiskAllocate;
    DiskAllocateCore(s.core, f);
    var c := DiskAllocate(s.core, f).0;
    SameLog(s.core, c);
    forall k ensures Content(s.(core := c), k) {
      assert Content(s, k);
    }
    forall k | k in s.frames ensures Placed(c, k) {
      assert Placed(s.core, k) && NumPages(c, k.file) >= NumPages(s.core, k.file);
    }
  }

  /** Allocation hands out a page that then reads as zeros and touches no other; the store stays as it
      was exactly when the page read as zeros before, as it does unless a frame for it is cached. */
  lemma AllocatePageInv(s: Sys, f: string)
    requires SysInv(s) && ValidFileId(f)
    ensures var (s', r) := AllocatePage(s, f); var k := PageKey(f, NumPages(s.core, f));
            && r == Some(k.pid) && SysInvBut(s', {k}) && PagesWritten(s.core, s'.core)
            && (forall j :: Logical(s', j) == if j == k then Zeros(s.core.cfg.pageSize) else Logical(s, j))
            && (SameStore(s, s') <==> Logical(s, k) == Zeros(s.core.cfg.pageSize))
            && (SysInv(s') <==> Logical(s, k) == Zeros(s.core.cfg.pageSize))
            && (k !in s.frames ==> Logical(s, k) == Zeros(s.core.cfg.pageSize))
            && s' == s.(core := s'.core, order := s'.order, frames := s'.frames, dirty := s'.dirty)
  {
    hide Inv, TxInv, DiskPage, FullLog, MakeRoom, Grows, Current, NumPages, DiskAllocate, FramesOk, IsDirty, ValidFileId;
    DiskAllocateInv(s, f);
    var (c, pid) := DiskAllocate(s.core, f);
    var k := PageKey(f, pid);
    var s1 := s.(core := c);
    MakeRoomInv(s1, {});
    var s2 := if k !in s1.frames && |s1.order| >= s1.poolSize then MakeRoom(s1).0 else s1;
    PagesWrittenSelf(c);
    PagesWrittenThen(s.core, c, s2.core);
    SameLog(s.core, s2.core);
    assert NumPages(s2.core, f) >= NumPages(c, f);
    SameStoreThen(s, s1, s2);
    assert Logical(s1, k) == Logical(s, k) && Logical(s2, k) == Logical(s, k) && Content(s2, k);
    PutDirtyInv(s2, k, Zeros(c.cfg.pageSize));
    forall j ensures Logical(AllocatePage(s, f).0, j) == if j == k then Zeros(s.core.cfg.pageSize) else Logical(s, j) {
      assert Logical(s2, j) == Logical(s, j);
    }
  }

  /** How a frame for a fresh page id comes about: a write just past the end of a file moves no page count, so
      the next allocation hands out that page and overwrites it with zeros. */
  lemma WriteThenAllocate(s: Sys, xid: int, k: PageKey, data: Bytes)
    requires SysInv(s) && MayWrite(s.core, xid) && Listable(k.file) && ValidWrite(s.core, k, data)
    requires k.pid == NumPages(s.core, k.file) && k !in s.frames && |s.order| < s.poolSize
    ensures var (s1, r) := WritePage(s, Some(xid), k, data);
            && SysInv(s1) && r == Some(Stamp(data, s.core.nextLsn)) && Logical(s1, k) == Stamp(data, s.core.nextLsn)
            && var (s2, pid) := AllocatePage(s1, k.file);
            && pid == Some(k.pid) && Logical(s2, k) == Zeros(s.core.cfg.pageSize)
  {
    hide Inv, TxInv, DiskPage, FullLog, LogPageUpdate, AllocatePage, Current, Stamp, CurrentBytes, NumPages, ValidFileId,
         PagesWritten, Content, Placed, Zeros, Grows;
    WritePageInv(s, xid, k, data);
    WriteKeepsCount(s, xid, k, data);
    AllocatePageInv(WritePage(s, Some(xid), k, data).0, k.file);
  }

  lemma WriteKeepsCount(s: Sys, xid: int, k: PageKey, data: Bytes)
    requires SysInv(s) && MayWrite(s.core, xid) && Listable(k.file) && ValidWrite(s.core, k, data)
    requires k !in s.frames && |s.order| < s.poolSize
    ensures var s1 := WritePage(s, Some(xid), k, data).0;
            s1.core.cfg == s.core.cfg && NumPages(s1.core, k.file) == NumPages(s.core, k.file)
  {
    hide TxInv, HistPart, LogPart, RunPage, DiskPage, FullLog, LogPageUpdate, BeforeImage, Current, Stamp, CurrentBytes;
    BeforeIsCurrent(s, k);
    CurrentDef(s.core, k);
    LogPageUpdateInv(s.core, xid, k, CurrentBytes(s, k), data);
  }

  // ---------------------------------------------------------------- flush

  lemma CleanInv(s: Sys, c: Core, k: PageKey)
    requires SysInv(s) && k in s.frames && PagesWritten(s.core, c) && DiskHolds(s.core, c, k, s.frames[k])
    ensures SysInv(s.(core := c, dirty := s.dirty[k := false])) && SameStore(s, s.(core := c, dirty := s.dirty[k := false]))
  {
    hide Inv, TxInv, FullLog, NumPages, Current, DiskPage;
    SameLog(s.core, c);
    var s' := s.(core := c, dirty := s.dirty[k := false]);
    forall j ensures Logical(s', j) == Logical(s, j) {
    }
    forall j ensures Content(s', j) {
      assert Content(s, j);
    }
    forall j | j in s.frames ensures Placed(c, j) {
      assert Placed(s.core, j);
      assert NumPages(c, j.file) >= NumPages(s.core, j.file);
    }
  }

  /** `flush` writes every dirty frame, in any order of frames, and leaves none dirty. */
  lemma {:induction false} FlushFramesInv(s: Sys, ks: seq<PageKey>)
    requires SysInv(s) && forall k :: k in ks ==> k in s.frames
    ensures var (s', ok) := FlushFrames(s, ks);
            && ok && SysInv(s') && SameStore(s, s') && PagesWritten(s.core, s'.core)
            && s' == s.(core := s'.core, dirty := s'.dirty)
            && (forall k :: k in ks || !IsDirty(s, k) ==> !IsDirty(s', k))
    decreases |ks|
  {
    hide Inv, TxInv, DiskPage, FullLog, WriteBack, Grows, Current;
    PagesWrittenSelf(s.core);
    if ks != [] {
      var k := ks[0];
      assert k in ks && Content(s, k);
      if IsDirty(s, k) {
        WriteBackInv(s.core, k);
        var c := WriteBack(s.core, k, s.frames[k]).0;
        CleanInv(s, c, k);
        var s1 := s.(core := c, dirty := s.dirty[k := false]);
        FlushFramesInv(s1, ks[1..]);
        SameStoreThen(s, s1, FlushFrames(s1, ks[1..]).0);
        PagesWrittenThen(s.core, c, FlushFrames(s1, ks[1..]).0.core);
      } else {
        FlushFramesInv(s, ks[1..]);
      }
    }
  }

  /** After `flush` the disk is the logical store. */
  lemma FlushInv(s: Sys)
    requires SysInv(s)
    ensures var (s', ok) := FlushFrames(s, s.order);
            && ok && SysInv(s') && SameStore(s, s') && PagesWritten(s.core, s'.core)
            && (forall k :: DiskPage(s'.core.files, s'.core.cfg.pageSize, k) == Logical(s, k))
            && s' == s.(core := s'.core, dirty := s'.dirty)
  {
    hide Inv, TxInv, DiskPage, FullLog, Current, Grows, FlushFrames;
    FlushFramesInv(s, s.order);
    var s' := FlushFrames(s, s.order).0;
    forall k ensures DiskPage(s'.core.files, s'.core.cfg.pageSize, k) == Logical(s, k) {
      assert Content(s', k) && Logical(s', k) == Logical(s, k);
    }
  }

  lemma SameOrder(s: Sys)
    ensures s.(order := s.order) == s
  {
  }

  lemma SameTouch(s: Sys, k: PageKey, data: Bytes)
    requires k in s.frames
    ensures PutFrame(s, k, data, true).order == s.order
  {
  }
}
