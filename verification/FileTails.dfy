/** Allocated pages reach their files: a file is shorter than its page count only while its last page is a dirty frame,
    in every run with crashes and restarts in it, so that a flush makes every file as long as the engine says. */
module FileTails {
  import opened Pages
  import opened Log
  import opened Engine
  import opened CoreInvariant
  import opened Pool
  import opened PoolInvariant
  import opened PoolSize
  import opened Redo
  import opened Recovery
  import opened Runs
  import opened FileLengths
  import opened Checkpoints

  /** The file is shorter than the engine says. */
  predicate Lags(c: Core, f: string) {
    Length(c.files, f) < NumPages(c, f)
  }

  predicate TailAt(s: Sys, f: string) {
    Lags(s.core, f) ==> var k := PageKey(f, NumPages(s.core, f) - 1); k in s.frames && IsDirty(s, k)
  }

  /** But for the files in x, the last page of a file that lags is a dirty frame. */
  ghost predicate TailsBut(s: Sys, x: set<string>) {
    forall f :: f !in x ==> TailAt(s, f)
  }

  ghost predicate Tails(s: Sys) {
    TailsBut(s, {})
  }

  // ---------------------------------------------------------------- page writes

  /** A page written back is in its file; no other file changes its length. */
  lemma WriteBackLengths(c: Core, k: PageKey, data: Bytes)
    requires |data| >= HEADER_SIZE && c.files.Keys == c.numPages.Keys && WriteBack(c, k, data).1
    ensures var c' := WriteBack(c, k, data).0;
            && Length(c'.files, k.file) == Max(Length(c.files, k.file), k.pid + 1)
            && NumPages(c', k.file) == Max(NumPages(c, k.file), k.pid + 1)
            && forall f :: f != k.file ==> Length(c'.files, f) == Length(c.files, f) && NumPages(c', f) == NumPages(c, f)
  {
    hide PageLsn, FlushLog;
    FlushKeeps(c);
    var c1 := FlushLogUpTo(c, PageLsn(data));
    WriteLengths(c1, k, data);
  }

  lemma WriteLengths(c: Core, k: PageKey, data: Bytes)
    requires c.files.Keys == c.numPages.Keys && DiskWrite(c, k, data).1
    ensures var c' := DiskWrite(c, k, data).0;
            && Length(c'.files, k.file) == Max(Length(c.files, k.file), k.pid + 1)
            && NumPages(c', k.file) == Max(NumPages(c, k.file), k.pid + 1)
            && forall f :: f != k.file ==> Length(c'.files, f) == Length(c.files, f) && NumPages(c', f) == NumPages(c, f)
  {
  }

  lemma SameKeySet(c: Core)
    requires Inv(c)
    ensures c.files.Keys == c.numPages.Keys
  {
  }

  /** An eviction: the victim's page is in its file afterwards. */
  lemma MakeRoomTails(s: Sys, x: set<PageKey>, g: set<string>)
    requires SysInvBut(s, x) && TailsBut(s, g) && forall k :: k in x ==> k !in s.frames
    ensures TailsBut(MakeRoom(s).0, g)
    ensures forall f :: (forall k :: k in s.frames && k.file == f ==> k.pid < NumPages(s.core, f))
                        ==> NumPages(MakeRoom(s).0.core, f) == NumPages(s.core, f)
  {
    hide Inv, TxInv, WriteBack, Content, Placed, NumPages, Length;
    MakeRoomInv(s, x);
    if |s.order| >= s.poolSize {
      var v := VictimOf(s.policy, s.order);
      assert v in s.order;
      var s' := MakeRoom(s).0;
      if IsDirty(s, v) {
        SameKeySet(s.core);
        WriteBackLengths(s.core, v, s.frames[v]);
      }
      forall f | f !in g ensures TailAt(s', f) {
        assert TailAt(s, f);
      }
    }
  }

  lemma PutTails(s: Sys, k: PageKey, data: Bytes, dirty: bool, order: seq<PageKey>, g: set<string>)
    requires TailsBut(s, g) && (dirty || k !in s.frames)
    ensures TailsBut(PutFrame(s, k, data, dirty).(order := order), g)
  {
    hide NumPages, Length;
    forall f | f !in g ensures TailAt(PutFrame(s, k, data, dirty).(order := order), f) {
      assert TailAt(s, f);
    }
  }

  /** A core step that leaves files and page counts alone. */
  lemma CoreTails(s: Sys, c: Core, g: set<string>)
    requires TailsBut(s, g) && c.files == s.core.files && c.numPages == s.core.numPages
    ensures TailsBut(s.(core := c), g)
  {
    forall f | f !in g ensures TailAt(s.(core := c), f) {
      assert TailAt(s, f);
    }
  }

  // ---------------------------------------------------------------- the operations

  lemma StoreTails(s: Sys, k: PageKey, data: Bytes)
    requires SysInvBut(s, {k}) && Tails(s)
    ensures Tails(StoreFrame(s, k, data).0)
  {
    hide Inv, TxInv, MakeRoom, Content, Placed, TailsBut, PutFrame;
    if k in s.frames {
      PutTails(s, k, data, true, Touch(PutFrame(s, k, data, true).order, k), {});
      SameTouch(s, k, data);
    } else {
      MakeRoomTails(s, {k}, {});
      var s1 := MakeRoom(s).0;
      PutTails(s1, k, data, true, PutFrame(s1, k, data, true).order, {});
      SameOrder(PutFrame(s1, k, data, true));
    }
  }

  lemma WriteTails(s: Sys, xid: int, k: PageKey, data: Bytes)
    requires SysInv(s) && Tails(s) && MayWrite(s.core, xid) && Listable(k.file)
    ensures Tails(WritePage(s, Some(xid), k, data).0)
  {
    hide TxInv, HistPart, LogPart, RunPage, DiskPage, FullLog, LogPageUpdate, StoreFrame, BeforeImage, Current, Stamp, CurrentBytes,
         TailsBut;
    if ValidWrite(s.core, k, data) {
      BeforeIsCurrent(s, k);
      LogPageUpdateInv(s.core, xid, k, CurrentBytes(s, k), data) by {
        CurrentDef(s.core, k);
      }
      var (c, page) := LogPageUpdate(s.core, Some(xid), k, CurrentBytes(s, k), data);
      LoggedInv(s, c, k, page);
      CoreTails(s, c, {});
      StoreTails(s.(core := c), k, page);
    }
  }

  lemma ReadTails(s: Sys, k: PageKey)
    requires SysInv(s) && Tails(s)
    ensures Tails(GetPage(s, k).0)
  {
    hide Inv, TxInv, MakeRoom, Content, Placed, DiskRead, PutFrame, TailsBut;
    if k in s.frames {
      TouchTails(s, Touch(s.order, k));
    } else if DiskRead(s.core, k).Some? {
      MakeRoomTails(s, {}, {});
      MakeRoomInv(s, {});
      var s1, data := MakeRoom(s).0, DiskRead(s.core, k).value;
      PutTails(s1, k, data, false, PutFrame(s1, k, data, false).order, {});
      SameOrder(PutFrame(s1, k, data, false));
    }
  }

  lemma TouchTails(s: Sys, order: seq<PageKey>)
    requires Tails(s)
    ensures Tails(s.(order := order))
  {
    forall f ensures TailAt(s.(order := order), f) {
      assert TailAt(s, f);
    }
  }

  lemma CreateTails(s: Sys, f: string)
    requires SysInv(s) && Tails(s)
    ensures Tails(s.(core := CreateFile(s.core, f)))
  {
    hide LogPart, HistPart, RunPage, TxInv, Content, Placed, FramesOk;
    var s' := s.(core := CreateFile(s.core, f));
    forall g ensures TailAt(s', g) {
      assert TailAt(s, g);
    }
  }

  /** The reserved page is the last one, and its frame is dirty. */
  lemma AllocateTails(s: Sys, f: string)
    requires SysInv(s) && Tails(s) && ValidFileId(f)
    ensures Tails(AllocatePage(s, f).0)
  {
    hide Inv, TxInv, MakeRoom, Content, DiskAllocate, DiskPage, FullLog, PutFrame, NumPages, TailsBut;
    DiskAllocateInv(s, f);
    var (c, pid) := DiskAllocate(s.core, f);
    var k, z := PageKey(f, pid), Zeros(c.cfg.pageSize);
    var s1 := s.(core := c);
    ReservedTails(s, f);
    MakeRoomTails(s1, {}, {f});
    MakeRoomInv(s1, {});
    forall j | j in s1.frames && j.file == f ensures j.pid < NumPages(c, f) {
      assert Placed(s.core, j);
    }
    var s2 := if k !in s1.frames && |s1.order| >= s1.poolSize then MakeRoom(s1).0 else s1;
    PutTails(s2, k, z, true, PutFrame(s2, k, z, true).order, {f});
    SameOrder(PutFrame(s2, k, z, true));
    PutDirty(s2, k, z);
    LastTails(PutFrame(s2, k, z, true), k);
  }

  lemma PutDirty(s: Sys, k: PageKey, data: Bytes)
    ensures var s' := PutFrame(s, k, data, true); s'.core == s.core && k in s'.frames && IsDirty(s', k)
  {
  }

  lemma ReservedTails(s: Sys, f: string)
    requires SysInv(s) && Tails(s)
    ensures TailsBut(s.(core := DiskAllocate(s.core, f).0), {f})
  {
    hide LogPart, HistPart, RunPage, TxInv, Content, Placed, FramesOk;
    var s' := s.(core := DiskAllocate(s.core, f).0);
    forall g | g != f ensures TailAt(s', g) {
      assert TailAt(s, g);
    }
  }

  lemma LastTails(s: Sys, k: PageKey)
    requires TailsBut(s, {k.file}) && NumPages(s.core, k.file) == k.pid + 1 && k in s.frames && IsDirty(s, k)
    ensures Tails(s)
  {
    hide NumPages, Length;
    forall f ensures TailAt(s, f) {
      assert f != k.file ==> TailAt(s, f);
    }
  }

  lemma {:induction false} FlushTails(s: Sys, ks: seq<PageKey>)
    requires SysInv(s) && Tails(s) && forall k :: k in ks ==> k in s.frames
    ensures Tails(FlushFrames(s, ks).0)
    decreases |ks|
  {
    hide Inv, TxInv, WriteBack, TailsBut, DiskPage, Current;
    if ks != [] {
      var k := ks[0];
      assert k in ks && Content(s, k);
      if IsDirty(s, k) {
        WriteBackInv(s.core, k);
        var c := WriteBack(s.core, k, s.frames[k]).0;
        CleanInv(s, c, k);
        CleanTails(s, k);
        FlushTails(s.(core := c, dirty := s.dirty[k := false]), ks[1..]);
      } else {
        FlushTails(s, ks[1..]);
      }
    }
  }

  lemma CleanTails(s: Sys, k: PageKey)
    requires SysInv(s) && Tails(s) && k in s.frames && WriteBack(s.core, k, s.frames[k]).1
    ensures Tails(s.(core := WriteBack(s.core, k, s.frames[k]).0, dirty := s.dirty[k := false]))
  {
    hide Inv, TxInv, WriteBack, Content, Placed, NumPages, Length;
    SameKeySet(s.core);
    WriteBackLengths(s.core, k, s.frames[k]);
    var s' := s.(core := WriteBack(s.core, k, s.frames[k]).0, dirty := s.dirty[k := false]);
    forall f ensures TailAt(s', f) {
      assert TailAt(s, f);
    }
  }

  lemma ApplyTails(s: Sys, op: Op)
    requires SysInv(s) && Enabled(s, op) && Tails(s)
    ensures Tails(Apply(s, op))
  {
    hide Inv, TxInv, Content, Placed, BeginTx, CommitTx, FlushLog, CreateFile, GetPage, WritePage, AllocatePage, FlushFrames, FramesOk,
         TailsBut;
    match op
    case Begin =>
      BeginInv(s.core);
      CoreTails(s, BeginTx(s.core), {});
    case Write(xid, k, data) => WriteTails(s, xid, k, data);
    case CommitOp(xid) =>
      CommitInv(s.core, xid);
      CoreTails(s, CommitTx(s.core, xid), {});
    case Read(k) => ReadTails(s, k);
    case Allocate(f) => AllocateTails(s, f);
    case NewFile(f) => CreateTails(s, f);
    case FlushPages =>
      AllFramed(s) by {
        SysFrames(s);
      }
      FlushTails(s, s.order);
    case ForceLog =>
      QuietFlush(s.core);
      CoreTails(s, FlushLog(s.core), {});
  }

  // ---------------------------------------------------------------- whole runs

  lemma RestartTails(cfg: Config, hist: seq<Durable>, xs: seq<int>, poolSize: nat, policy: Policy)
    requires AllCrashOk(cfg, hist)
    ensures Tails(Sys(Recover(cfg, hist, xs), poolSize, policy, [], map[], map[]))
  {
    hide Recover, Needed, CrashInv;
    var s := Sys(Recover(cfg, hist, xs), poolSize, policy, [], map[], map[]);
    forall f ensures TailAt(s, f) {
      RecoveredLengths(cfg, hist, xs, f);
    }
  }

  lemma NextTails(s: Sys, step: Step)
    requires SysInv(s) && StepOk(s, step) && Tails(s)
    ensures Tails(Next(s, step))
  {
    hide Inv, TxInv, Apply, Recover, ClosingOrder, CrashInv, AfterCuts, CutsOk, TailsBut, Content, Placed;
    match step
    case Do(op) => ApplyTails(s, op);
    case CrashIn(op, j, cuts, xs) =>
      CrashPointOk(s, op, j);
      var h := CrashHist(s, op, j);
      CutsInv(s.core.cfg, h, cuts);
      RestartTails(s.core.cfg, AfterCuts(s.core.cfg, h, cuts), xs, s.poolSize, s.policy);
  }

  lemma {:induction false} RunTails(s: Sys, steps: seq<Step>)
    requires SysInv(s) && Legal(s, steps) && Tails(s)
    ensures Tails(Run(s, steps))
    decreases |steps|
  {
    hide SysInv, Next, StepOk, TailsBut;
    if steps != [] {
      StepFrames(s, steps);
      NextInv(s, steps[0]);
      NextTails(s, steps[0]);
      RunTails(Next(s, steps[0]), steps[1..]);
    }
  }

  lemma FreshTails(cfg: Config, poolSize: nat, policy: Policy)
    ensures Tails(Fresh(cfg, poolSize, policy))
  {
  }

  /** After any run and a flush every file has as many pages on disk as the engine says, the allocated ones included. */
  lemma FlushedLengths(cfg: Config, poolSize: nat, policy: Policy, steps: seq<Step>, f: string)
    requires FreshRun(cfg, poolSize, policy, steps)
    ensures var s := FreshEnd(cfg, poolSize, policy, steps);
            FramesOk(s) && var c := Apply(s, FlushPages).core; Length(c.files, f) == NumPages(c, f)
  {
    hide Inv, TxInv, Run, Legal, FlushFrames, TailsBut, Content, Placed;
    FreshInv(cfg, poolSize, policy);
    FreshTails(cfg, poolSize, policy);
    RunTails(Fresh(cfg, poolSize, policy), steps);
    var s := FreshEnd(cfg, poolSize, policy, steps);
    SysFrames(s);
    FlushFramesInv(s, s.order);
    FlushTails(s, s.order);
    AllClean(FlushFrames(s, s.order).0, f);
  }

  lemma AllClean(s: Sys, f: string)
    requires SysInv(s) && Tails(s) && forall k :: k in s.frames ==> !IsDirty(s, k)
    ensures Length(s.core.files, f) == NumPages(s.core, f)
  {
    hide LogPart, HistPart, RunPage, TxInv, Content, Placed, FramesOk;
    assert TailAt(s, f);
  }
}
