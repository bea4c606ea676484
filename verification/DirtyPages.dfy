/** The dirty page table, exactly: in a run without a restart it lists the pages whose disk version lags behind, each
    with the LSN of the first update that is missing there, and all of them are dirty frames. */
module DirtyPages {
  import opened Pages
  import opened Log
  import opened Engine
  import opened CoreInvariant
  import opened Pool
  import opened PoolInvariant
  import opened Redo
  import opened Checkpoints
  import opened Runs

  /** The page on disk holds exactly the first n of everything logged for it. */
  predicate AsOnDisk(c: Core, k: PageKey, n: nat) {
    && n <= |Upd(FullLog(c), k)|
    && DiskPage(c.files, c.cfg.pageSize, k) == Replay(Upd(FullLog(c), k)[..n], Zeros(c.cfg.pageSize))
  }

  /** Listed exactly when an update is missing there, with the LSN of the first one. */
  ghost predicate ExactAt(c: Core, k: PageKey) {
    forall n: nat :: AsOnDisk(c, k, n) ==> MissingListed(c, k, n)
  }

  predicate MissingListed(c: Core, k: PageKey, n: nat) {
    var us := Upd(FullLog(c), k);
    && (k in c.dpt <==> n < |us|)
    && (k in c.dpt && n < |us| ==> c.dpt[k] == us[n].lsn)
  }

  /** Except for the pages in x, every listed page is a dirty frame, and a dirty frame that is not listed is that of a
      page for which nothing has been logged. */
  ghost predicate ExactBut(s: Sys, x: set<PageKey>) {
    && (forall k :: ExactAt(s.core, k))
    && (forall k :: k in s.core.dpt && k !in x ==> k in s.frames && IsDirty(s, k))
    && (forall k :: k in s.frames && k !in x ==> CleanOrListed(s, k))
  }

  predicate CleanOrListed(s: Sys, k: PageKey) {
    IsDirty(s, k) ==> k in s.core.dpt || Upd(FullLog(s.core), k) == []
  }

  ghost predicate Exact(s: Sys) {
    ExactBut(s, {})
  }

  // ---------------------------------------------------------------- how much of its history a page holds

  /** The content of a page tells how many updates it holds. */
  lemma HeldUnique(log: seq<Rec>, k: PageKey, n: nat, m: nat, ps: nat)
    requires ps >= HEADER_SIZE && LogInv(log, ps) && n <= |Upd(log, k)| && m <= |Upd(log, k)|
    requires Replay(Upd(log, k)[..n], Zeros(ps)) == Replay(Upd(log, k)[..m], Zeros(ps))
    ensures n == m
  {
    hide LogInv, Replay, Upd, PageLsn;
    ReplayLsn(log, k, n, ps);
    ReplayLsn(log, k, m, ps);
    assert Upd(log, k)[..0] == [];
    ReplayNothing(Zeros(ps));
    if 0 < n < m {
      UpdLsnsIncrease(log, k, n - 1, m - 1, ps);
    } else if 0 < m < n {
      UpdLsnsIncrease(log, k, m - 1, n - 1, ps);
    }
  }

  /** A page that was not touched stays as exact as it was. */
  lemma SameExact(c: Core, c': Core, k: PageKey)
    requires ExactAt(c, k) && c'.cfg == c.cfg && Upd(FullLog(c'), k) == Upd(FullLog(c), k)
    requires DiskPage(c'.files, c.cfg.pageSize, k) == DiskPage(c.files, c.cfg.pageSize, k)
    requires (k in c'.dpt <==> k in c.dpt) && (k in c.dpt ==> c'.dpt[k] == c.dpt[k])
    ensures ExactAt(c', k)
  {
    hide Upd, FullLog, DiskPage, Replay;
    forall n: nat | AsOnDisk(c', k, n) ensures MissingListed(c', k, n) {
      assert AsOnDisk(c, k, n);
    }
  }

  /** A page that was written whole is exact when it is not listed. */
  lemma WholeExact(c: Core, k: PageKey)
    requires Inv(c) && k !in c.dpt && DiskPage(c.files, c.cfg.pageSize, k) == Current(c, k)
    ensures ExactAt(c, k)
  {
    hide FilePart, HistPart, RunPage, Upd, DiskPage, Replay, DptBelow;
    var us := Upd(FullLog(c), k);
    assert us[..|us|] == us;
    forall n: nat | AsOnDisk(c, k, n) ensures MissingListed(c, k, n) {
      HeldUnique(FullLog(c), k, n, |us|, c.cfg.pageSize);
    }
  }

  /** Steps that neither log an update nor change a page or the table. */
  lemma QuietExact(s: Sys, c: Core, x: set<PageKey>)
    requires ExactBut(s, x) && c.cfg == s.core.cfg && c.dpt == s.core.dpt
    requires forall k :: Upd(FullLog(c), k) == Upd(FullLog(s.core), k)
    requires forall k :: DiskPage(c.files, c.cfg.pageSize, k) == DiskPage(s.core.files, c.cfg.pageSize, k)
    ensures ExactBut(s.(core := c), x)
  {
    hide ExactAt, FullLog, Upd, DiskPage;
    forall k ensures ExactAt(c, k) {
      assert ExactAt(s.core, k);
      SameExact(s.core, c, k);
    }
  }

  // ---------------------------------------------------------------- write-back

  /** Writing back a current page takes exactly that page out of the table. */
  lemma WriteBackExact(c: Core, k: PageKey)
    requires Inv(c) && TxInv(c) && Placed(c, k) && forall j :: ExactAt(c, j)
    ensures var c' := WriteBack(c, k, Current(c, k)).0;
            Inv(c') && Dropped(c.dpt, c'.dpt, k) && forall j :: ExactAt(c', j)
  {
    hide Inv, TxInv, ExactAt, WriteBack, FullLog, Upd, DiskPage, Grows, Current;
    PageSizeOk(c);
    CurrentSize(c, k);
    WriteBackInv(c, k);
    var c' := WriteBack(c, k, Current(c, k)).0;
    SameLog(c, c');
    forall j ensures ExactAt(c', j) {
      assert ExactAt(c, j);
      if j == k {
        WholeExact(c', k);
      } else {
        SameExact(c, c', j);
      }
    }
  }

  /** v has been written back and its frame is clean or gone; other frames are as they were. */
  ghost predicate WrittenFrom(s: Sys, s': Sys, v: PageKey) {
    && FullLog(s'.core) == FullLog(s.core) && Dropped(s.core.dpt, s'.core.dpt, v) && (v in s'.frames ==> !IsDirty(s', v))
    && forall k :: k != v ==> (k in s'.frames <==> k in s.frames) && (k in s'.frames ==> IsDirty(s', k) == IsDirty(s, k))
  }

  lemma WrittenExact(s: Sys, s': Sys, v: PageKey, x: set<PageKey>)
    requires ExactBut(s, x) && WrittenFrom(s, s', v) && forall j :: ExactAt(s'.core, j)
    ensures ExactBut(s', x)
  {
    hide ExactAt, FullLog, Upd, IsDirty;
    forall k | k in s'.frames && k !in x ensures CleanOrListed(s', k) {
      assert k != v ==> CleanOrListed(s, k);
    }
  }

  lemma MakeRoomExact(s: Sys, x: set<PageKey>)
    requires SysInvBut(s, x) && ExactBut(s, x) && forall k :: k in x ==> k !in s.frames
    ensures var s' := MakeRoom(s).0;
            && ExactBut(s', x)
            && (forall k :: k in s'.core.dpt ==> k in s.core.dpt && s'.core.dpt[k] == s.core.dpt[k])
            && (forall k :: k in s.frames && k !in s'.frames ==> k !in s'.core.dpt)
            && (forall k :: k !in s.frames ==> (k in s'.core.dpt <==> k in s.core.dpt))
            && FullLog(s'.core) == FullLog(s.core)
  {
    hide Inv, TxInv, ExactAt, WriteBack, DiskPage, FullLog, Current, Without, Placed, Grows;
    if |s.order| >= s.poolSize {
      var v := VictimOf(s.policy, s.order);
      assert v in s.order && Content(s, v);
      if IsDirty(s, v) {
        WriteBackInv(s.core, v);
        WriteBackExact(s.core, v);
        var c := WriteBack(s.core, v, s.frames[v]).0;
        var s' := DropFrame(s.(core := c), v);
        assert MakeRoom(s).0 == s' && WrittenFrom(s, s', v);
        hide IsDirty, Content, MakeRoom;
        WrittenExact(s, s', v, x);
      }
    }
  }

  /** A frame put dirty: its page is listed, or nothing has been logged for it. */
  lemma PutDirtyExact(s: Sys, k: PageKey, data: Bytes, order: seq<PageKey>)
    requires ExactBut(s, {k}) && (k in s.core.dpt || Upd(FullLog(s.core), k) == [])
    ensures var s' := PutFrame(s, k, data, true).(order := order); Exact(s') && IsDirty(s', k) && k in s'.frames
  {
    hide ExactAt, FullLog, Upd;
    var s' := PutFrame(s, k, data, true).(order := order);
    forall j | j in s'.frames ensures CleanOrListed(s', j) {
      assert j != k ==> CleanOrListed(s, j);
    }
  }

  lemma StoreFrameExact(s: Sys, k: PageKey, data: Bytes)
    requires SysInvBut(s, {k}) && ExactBut(s, {k}) && (k in s.core.dpt || Upd(FullLog(s.core), k) == [])
    ensures var s' := StoreFrame(s, k, data).0;
            StoreFrame(s, k, data).1.Some? ==> Exact(s') && IsDirty(s', k) && k in s'.frames
  {
    hide Inv, TxInv, ExactBut, MakeRoom, Content, Placed, IsDirty, PutFrame, FullLog, Upd;
    if k in s.frames {
      PutDirtyExact(s, k, data, Touch(PutFrame(s, k, data, true).order, k));
      SameTouch(s, k, data);
    } else {
      MakeRoomExact(s, {k});
      var s1 := MakeRoom(s).0;
      PutDirtyExact(s1, k, data, PutFrame(s1, k, data, true).order);
      SameOrder(PutFrame(s1, k, data, true));
    }
  }

  // ---------------------------------------------------------------- logged writes

  /** The page enters the table with this update if everything before it is on disk, and otherwise stays in it. */
  lemma UpdateExact(c: Core, c': Core, k: PageKey, u: Rec)
    requires Inv(c) && Inv(c') && ExactAt(c, k) && c'.cfg == c.cfg && Upd(FullLog(c'), k) == Upd(FullLog(c), k) + [u]
    requires DiskPage(c'.files, c.cfg.pageSize, k) == DiskPage(c.files, c.cfg.pageSize, k)
    requires c'.dpt == if k in c.dpt then c.dpt else c.dpt[k := u.lsn]
    ensures ExactAt(c', k)
  {
    hide FilePart, HistPart, Upd, DiskPage, Replay, DptBelow, FullLog, CkptOk, DptCovers;
    var us, vs := Upd(FullLog(c), k), Upd(FullLog(c'), k);
    assert RunPage(c, k);
    var m: nat :| RunHolds(c, k, m);
    assert vs[..m] == us[..m];
    forall n: nat | AsOnDisk(c', k, n) ensures MissingListed(c', k, n) {
      HeldUnique(FullLog(c'), k, n, m, c.cfg.pageSize);
      assert AsOnDisk(c, k, n) && MissingListed(c, k, n);
    }
  }

  /** The core after a logged write, before the frame is stored. */
  lemma LoggedExact(s: Sys, xid: int, k: PageKey, data: Bytes)
    requires SysInv(s) && Exact(s) && MayWrite(s.core, xid) && Listable(k.file) && ValidWrite(s.core, k, data)
    ensures var c := LogPageUpdate(s.core, Some(xid), k, CurrentBytes(s, k), data).0;
            ExactBut(s.(core := c), {k}) && (k in c.dpt || Upd(FullLog(c), k) == [])
  {
    hide TxInv, FilePart, HistPart, LogPart, RunPage, ExactAt, Stamp, LogPageUpdate, DiskPage, Current, BeforeImage, CurrentBytes,
         FullLog, Upd, IsDirty, Content, Placed;
    BeforeIsCurrent(s, k);
    CurrentDef(s.core, k);
    var c0, before := s.core, CurrentBytes(s, k);
    PageSizeOk(c0);
    LogPageUpdateInv(c0, xid, k, before, data);
    var c := LogPageUpdate(c0, Some(xid), k, before, data).0;
    if BeforeImage(before, |data|) == Stamp(data, c0.nextLsn) {
      Unchanged(c0, xid, k, before, data);
      NothingLoggedFor(c0, k, data);
    } else {
      UpdateDue(c0, xid, k, before, data);
      var u := UpdateAdds(c0, xid, k, before, data);
      assert ExactAt(c0, k);
      UpdateExact(c0, c, k, u);
    }
    OthersExact(s, c, k);
  }

  lemma OthersExact(s: Sys, c: Core, k: PageKey)
    requires Exact(s) && ExactAt(c, k) && c.cfg == s.core.cfg && c.files == s.core.files
    requires forall j :: j != k ==> Upd(FullLog(c), j) == Upd(FullLog(s.core), j)
    requires c.dpt == s.core.dpt || (k in c.dpt && c.dpt == s.core.dpt[k := c.dpt[k]])
    ensures ExactBut(s.(core := c), {k})
  {
    hide ExactAt, FullLog, Upd, DiskPage;
    forall j ensures ExactAt(c, j) {
      assert ExactAt(s.core, j);
      if j != k {
        SameExact(s.core, c, j);
      }
    }
  }

  /** A write that changes nothing, not even the pageLSN, is one of a page without a history. */
  lemma NothingLoggedFor(c: Core, k: PageKey, data: Bytes)
    requires Inv(c) && |data| == c.cfg.pageSize >= HEADER_SIZE && Current(c, k) == Stamp(data, c.nextLsn) && c.nextLsn < LSN_LIMIT
    requires ExactAt(c, k)
    ensures Upd(FullLog(c), k) == [] && ExactAt(c.(nextLsn := c.nextLsn + 1), k)
  {
    hide FilePart, HistPart, RunPage, Upd, DiskPage, Replay, DptBelow, PageLsn, Stamp;
    var us := Upd(FullLog(c), k);
    StampedLsn(data, c.nextLsn);
    assert us[..|us|] == us;
    ReplayLsn(FullLog(c), k, |us|, c.cfg.pageSize);
    if us != [] {
      var i := UpdIndex(FullLog(c), k, |us| - 1);
      if i < |FullLog(c)| - 1 {
        LsnsIncrease(FullLog(c), i, |FullLog(c)| - 1, c.cfg.pageSize);
      }
    }
    OnlyVolatile(c, c.(nextLsn := c.nextLsn + 1));
    SameExact(c, c.(nextLsn := c.nextLsn + 1), k);
  }

  lemma Unchanged(c: Core, xid: int, k: PageKey, before: Option<Bytes>, data: Bytes)
    requires |data| >= HEADER_SIZE && BeforeImage(before, |data|) == Stamp(data, c.nextLsn)
    ensures LogPageUpdate(c, Some(xid), k, before, data).0 == c.(nextLsn := c.nextLsn + 1)
    ensures FullLog(c.(nextLsn := c.nextLsn + 1)) == FullLog(c)
  {
  }

  /** A write logs one update of its page. */
  lemma UpdateAdds(c: Core, xid: int, k: PageKey, before: Option<Bytes>, data: Bytes) returns (u: Rec)
    requires Inv(c) && TxInv(c) && xid in c.tx && c.tx[xid].status == Active && 0 <= xid < c.nextXid
    requires ValidFileId(k.file) && Listable(k.file) && |data| == c.cfg.pageSize && c.nextLsn < LSN_LIMIT
    requires c.cfg.pageSize >= HEADER_SIZE && BeforeImage(before, |data|) != Stamp(data, c.nextLsn)
    requires BeforeImage(before, |data|) == Replay(Upd(FullLog(c), k), Zeros(c.cfg.pageSize))
    ensures u.lsn == c.nextLsn
    ensures Upd(FullLog(LogPageUpdate(c, Some(xid), k, before, data).0), k) == Upd(FullLog(c), k) + [u]
  {
    hide MaybeCheckpoint, Inv, TxInv, EmitWithLsn, Stamp, DiffRange, BeforeImage, Replay, FullLog, PageLsn, PageLogged, AddDirty,
         Between, PatchAt, RestoreAt;
    var stamped, full := Stamp(data, c.nextLsn), BeforeImage(before, |data|);
    StampedLsn(data, c.nextLsn);
    UpdateEmitted(c, xid, k, full, stamped);
    var (lo, hi) := DiffRange(full, stamped).value;
    var c1, body := c.(nextLsn := c.nextLsn + 1), Update(k, lo, full[lo..hi], stamped[lo..hi]);
    u := MakeRec(c1, c.nextLsn, xid, body);
    EmitBetween(c1, c.nextLsn, xid, body);
    var c2 := AddDirty(EmitWithLsn(c1, c.nextLsn, xid, body), k, c.nextLsn);
    MaybeQuiet(c, c2, k, stamped);
    Snoc(FullLog(c), u);
    OnlyVolatile(c, c1);
    DirtyVolatile(EmitWithLsn(c1, c.nextLsn, xid, body), k, c.nextLsn);
  }

  lemma DirtyVolatile(c: Core, k: PageKey, lsn: nat)
    ensures FullLog(AddDirty(c, k, lsn)) == FullLog(c)
  {
  }

  lemma OnlyVolatile(c: Core, c': Core)
    requires c'.wal == c.wal && c'.logBuf == c.logBuf
    ensures FullLog(c') == FullLog(c)
  {
  }

  lemma MaybeQuiet(c: Core, c2: Core, k: PageKey, page: Bytes)
    requires PageLogged(c, c2, k, page)
    ensures Upd(FullLog(MaybeCheckpoint(c2)), k) == Upd(FullLog(c2), k)
  {
    hide Inv, TxInv, MaybeCheckpoint;
    MaybeCheckpointInv(c2);
  }

  lemma WriteExact(s: Sys, xid: int, k: PageKey, data: Bytes)
    requires SysInv(s) && Exact(s) && MayWrite(s.core, xid) && Listable(k.file)
    ensures Exact(WritePage(s, Some(xid), k, data).0)
  {
    hide TxInv, HistPart, LogPart, RunPage, DiskPage, FullLog, LogPageUpdate, StoreFrame, BeforeImage, Current, Stamp, CurrentBytes,
         ExactAt;
    if ValidWrite(s.core, k, data) {
      BeforeIsCurrent(s, k);
      LogPageUpdateInv(s.core, xid, k, CurrentBytes(s, k), data) by {
        CurrentDef(s.core, k);
      }
      var (c, page) := LogPageUpdate(s.core, Some(xid), k, CurrentBytes(s, k), data);
      LoggedInv(s, c, k, page);
      LoggedExact(s, xid, k, data);
      assert Placed(c, k);
      StoreFrameInv(s.(core := c), k, page);
      StoreFrameExact(s.(core := c), k, page);
    }
  }

  // ---------------------------------------------------------------- the other operations

  lemma ReadExact(s: Sys, k: PageKey)
    requires SysInv(s) && Exact(s)
    ensures Exact(GetPage(s, k).0)
  {
    hide Inv, TxInv, ExactAt, MakeRoom, DiskRead, Content, Placed;
    if k !in s.frames && DiskRead(s.core, k).Some? {
      MakeRoomExact(s, {});
    }
  }

  lemma AllocateExact(s: Sys, f: string)
    requires SysInv(s) && Exact(s) && Logical(s, PageKey(f, NumPages(s.core, f))) == Zeros(s.core.cfg.pageSize)
    ensures Exact(AllocatePage(s, f).0)
  {
    hide Inv, TxInv, ExactAt, MakeRoom, Content, Placed, DiskAllocate, DiskPage, FullLog, Upd, IsDirty, Current;
    DiskAllocateInv(s, f);
    var (c, pid) := DiskAllocate(s.core, f);
    var k := PageKey(f, pid);
    BlankUnlogged(s, k);
    AllocateQuiet(s.core, f);
    QuietExact(s, c, {});
    var s1 := s.(core := c);
    MakeRoomExact(s1, {});
    var s2 := if k !in s1.frames && |s1.order| >= s1.poolSize then MakeRoom(s1).0 else s1;
    FewerBut(s2, k);
    var z := Zeros(c.cfg.pageSize);
    PutDirtyExact(s2, k, z, PutFrame(s2, k, z, true).order);
    SameOrder(PutFrame(s2, k, z, true));
  }

  lemma FewerBut(s: Sys, k: PageKey)
    requires Exact(s)
    ensures ExactBut(s, {k})
  {
    hide ExactAt;
  }

  /** A page that reads as zeros has no history. */
  lemma BlankUnlogged(s: Sys, k: PageKey)
    requires SysInv(s) && Logical(s, k) == Zeros(s.core.cfg.pageSize)
    ensures Upd(FullLog(s.core), k) == []
  {
    hide TxInv, FilePart, HistPart, RunPage, Upd, DiskPage, Replay, DptBelow, PageLsn, FramesOk, Placed;
    assert Content(s, k);
    var us, ps := Upd(FullLog(s.core), k), s.core.cfg.pageSize;
    assert us[..|us|] == us;
    ReplayLsn(FullLog(s.core), k, |us|, ps);
  }

  lemma AllocateQuiet(c: Core, f: string)
    requires Inv(c)
    ensures var c' := DiskAllocate(c, f).0;
            && c'.cfg == c.cfg && c'.dpt == c.dpt
            && (forall k :: Upd(FullLog(c'), k) == Upd(FullLog(c), k))
            && forall k :: DiskPage(c'.files, c.cfg.pageSize, k) == DiskPage(c.files, c.cfg.pageSize, k)
  {
    hide Inv, CreateFile, DiskPage;
    CreateFileInv(c, f);
    var c1 := if f in c.numPages then c else CreateFile(c, f);
    OnlyVolatile(c1, DiskAllocate(c, f).0);
  }

  /** One dirty frame written back and marked clean. */
  lemma FlushOneExact(s: Sys, k: PageKey)
    requires SysInv(s) && Exact(s) && k in s.frames && IsDirty(s, k)
    ensures var (c, ok) := WriteBack(s.core, k, s.frames[k]); var s' := s.(core := c, dirty := s.dirty[k := false]);
            && ok && SysInv(s') && Exact(s') && Dropped(s.core.dpt, c.dpt, k)
  {
    hide Inv, TxInv, DiskPage, FullLog, WriteBack, Current, ExactAt;
    assert Content(s, k);
    WriteBackInv(s.core, k);
    WriteBackExact(s.core, k);
    hide ExactBut;
    var c := WriteBack(s.core, k, s.frames[k]).0;
    var s' := s.(core := c, dirty := s.dirty[k := false]);
    assert WrittenFrom(s, s', k);
    WrittenExact(s, s', k, {});
    CleanInv(s, c, k);
  }

  /** `flush` takes exactly the dirty frames it writes out of the table. */
  lemma {:induction false} FlushFramesExact(s: Sys, ks: seq<PageKey>)
    requires SysInv(s) && Exact(s) && forall k :: k in ks ==> k in s.frames
    ensures var s' := FlushFrames(s, ks).0;
            && Exact(s')
            && (forall k :: k in ks ==> k !in s'.core.dpt)
            && (forall k :: k !in ks ==> (k in s'.core.dpt <==> k in s.core.dpt))
            && (forall k :: k in s'.core.dpt ==> s'.core.dpt[k] == s.core.dpt[k])
    decreases |ks|
  {
    hide Inv, TxInv, DiskPage, FullLog, WriteBack, Current, ExactAt, Content, Placed;
    if ks != [] {
      var k := ks[0];
      assert k in ks;
      if IsDirty(s, k) {
        FlushOneExact(s, k);
        var c := WriteBack(s.core, k, s.frames[k]).0;
        FlushFramesExact(s.(core := c, dirty := s.dirty[k := false]), ks[1..]);
      } else {
        FlushFramesExact(s, ks[1..]);
      }
    }
  }

  /** After `flush` the table is empty. */
  lemma FlushEmpties(s: Sys)
    requires SysInv(s) && Exact(s)
    ensures Exact(FlushFrames(s, s.order).0) && FlushFrames(s, s.order).0.core.dpt == map[]
  {
    hide Inv, TxInv, ExactAt, FlushFrames, Content, Placed;
    FlushFramesExact(s, s.order);
    var dpt := FlushFrames(s, s.order).0.core.dpt;
    forall k ensures k !in dpt {
      assert k in s.core.dpt ==> k in s.order;
    }
  }

  lemma CommitKeepsDpt(c: Core, xid: int)
    ensures CommitTx(c, xid).dpt == c.dpt && CommitTx(c, xid).cfg == c.cfg
  {
    hide EmitWithLsn, FlushLog, FullLog;
    var c1 := Emit(c, xid, Commit);
    EmitBetween(c.(nextLsn := c.nextLsn + 1), c.nextLsn, xid, Commit);
    FlushRest(c1);
    var c2 := SetCommitted(FlushLog(c1), xid);
    EmitBetween(c2.(nextLsn := c2.nextLsn + 1), c2.nextLsn, xid, End);
    FlushRest(Emit(c2, xid, End));
  }

  lemma BeginExact(s: Sys)
    requires SysInv(s) && Exact(s)
    ensures Exact(s.(core := BeginTx(s.core)))
  {
    hide Inv, TxInv, ExactAt, BeginTx, CheckpointedWhenDue, Content, Placed, DiskPage, FullLog, FramesOk;
    BeginInv(s.core);
    BeginDue(s.core);
    QuietExact(s, BeginTx(s.core), {});
  }

  lemma CommitExact(s: Sys, xid: int)
    requires SysInv(s) && Exact(s) && xid in s.core.tx && 0 <= xid < s.core.nextXid
    ensures Exact(s.(core := CommitTx(s.core, xid)))
  {
    hide Inv, TxInv, ExactAt, CommitTx, Content, Placed, DiskPage, FullLog, FramesOk;
    CommitInv(s.core, xid);
    CommitKeepsDpt(s.core, xid);
    QuietExact(s, CommitTx(s.core, xid), {});
  }

  lemma ApplyExact(s: Sys, op: Op)
    requires SysInv(s) && Enabled(s, op) && Exact(s)
    ensures Exact(Apply(s, op))
  {
    hide Inv, TxInv, ExactAt, Content, Placed, BeginTx, CommitTx, FlushLog, CreateFile, GetPage, WritePage, AllocatePage, FlushFrames,
         DiskPage, FullLog, FramesOk;
    match op
    case Begin => BeginExact(s);
    case Write(xid, k, data) => WriteExact(s, xid, k, data);
    case CommitOp(xid) => CommitExact(s, xid);
    case Read(k) => ReadExact(s, k);
    case Allocate(f) => AllocateExact(s, f);
    case NewFile(f) =>
      CreateFileInv(s.core, f);
      QuietExact(s, CreateFile(s.core, f), {});
    case FlushPages => FlushEmpties(s);
    case ForceLog =>
      QuietFlush(s.core);
      QuietExact(s, FlushLog(s.core), {});
  }

  // ---------------------------------------------------------------- whole runs

  predicate NoCrash(steps: seq<Step>) {
    forall i :: 0 <= i < |steps| ==> steps[i].Do?
  }

  lemma {:induction false} RunExact(s: Sys, steps: seq<Step>)
    requires SysInv(s) && Legal(s, steps) && NoCrash(steps) && Exact(s)
    ensures Exact(Run(s, steps))
    decreases |steps|
  {
    hide SysInv, Apply, Enabled, Exact, FramesOk;
    if steps != [] {
      StepFrames(s, steps);
      NextInv(s, steps[0]);
      ApplyExact(s, steps[0].op);
      RunExact(Next(s, steps[0]), steps[1..]);
    }
  }

  /** In every run from an empty directory without a restart the table is exact: it lists the pages that lag behind on
      disk, each with the LSN of its first missing update; they are dirty frames, and every other dirty frame is that of a
      page for which nothing has been logged. */
  lemma DirtyTableExact(cfg: Config, poolSize: nat, policy: Policy, steps: seq<Step>, k: PageKey, n: nat)
    requires FreshRun(cfg, poolSize, policy, steps) && NoCrash(steps)
    ensures var s := FreshEnd(cfg, poolSize, policy, steps); var us := Upd(FullLog(s.core), k);
            && (k in s.core.dpt ==> k in s.frames && IsDirty(s, k))
            && (k in s.frames && IsDirty(s, k) ==> k in s.core.dpt || us == [])
            && (AsOnDisk(s.core, k, n) ==> (k in s.core.dpt <==> n < |us|) && (k in s.core.dpt ==> s.core.dpt[k] == us[n].lsn))
  {
    hide SysInv, Run, Legal, AsOnDisk, FullLog, Upd;
    FreshInv(cfg, poolSize, policy);
    FreshExact(cfg, poolSize, policy);
    RunExact(Fresh(cfg, poolSize, policy), steps);
    var s := FreshEnd(cfg, poolSize, policy, steps);
    assert ExactAt(s.core, k);
  }

  lemma FreshExact(cfg: Config, poolSize: nat, policy: Policy)
    ensures Exact(Fresh(cfg, poolSize, policy))
  {
  }

  /** And after a flush it is empty. */
  lemma FlushedTableEmpty(cfg: Config, poolSize: nat, policy: Policy, steps: seq<Step>)
    requires FreshRun(cfg, poolSize, policy, steps) && NoCrash(steps)
    ensures var s := FreshEnd(cfg, poolSize, policy, steps); FramesOk(s) && Apply(s, FlushPages).core.dpt == map[]
  {
    hide SysInv, Run, Legal, FlushFrames, FramesOk, Exact;
    FreshInv(cfg, poolSize, policy);
    FreshExact(cfg, poolSize, policy);
    RunExact(Fresh(cfg, poolSize, policy), steps);
    var s := FreshEnd(cfg, poolSize, policy, steps);
    FramesOfInv(s);
    FlushEmpties(s);
  }

  lemma FramesOfInv(s: Sys)
    requires SysInv(s)
    ensures FramesOk(s) && forall k :: k in s.order ==> k in s.frames
  {
  }
}
