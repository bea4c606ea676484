/** Where the pageLSN that a recovery leaves is not below the next LSN, a change of that page that commits later is
    lost in the next crash; and a crash state from which this happens. */
module LostCommit {
  import opened Pages
  import opened Log
  import opened Engine
  import opened CoreInvariant
  import opened Pool
  import opened PoolInvariant
  import opened Analysis
  import opened Redo
  import opened Undo
  import opened Recovery
  import opened LostUpdate
  import opened FullRecovery
  import opened AfterRecovery
  import opened SecondRestart
  import opened PageLsns
  import opened Runs

  // ---------------------------------------------------------------- what a transaction adds to the log

  /** The log grew by these records; pages and master record are as they were. */
  predicate Appends(c: Core, c': Core, rs: seq<Rec>) {
    && FullLog(c') == FullLog(c) + rs
    && c'.files == c.files && c'.numPages == c.numPages && c'.master == c.master && c'.cfg == c.cfg
    && (Recorded(c) ==> Recorded(c'))
  }

  lemma AppendsThen(c: Core, c1: Core, c2: Core, a: seq<Rec>, b: seq<Rec>)
    requires Appends(c, c1, a) && Appends(c1, c2, b)
    ensures Appends(c, c2, a + b)
  {
    hide FullLog, Recorded;
  }

  lemma FlushAppends(c: Core)
    ensures var c' := FlushLog(c); Appends(c, c', []) && c'.logBuf == [] && c'.nextLsn == c.nextLsn && c'.ops == c.ops
  {
    if c.logBuf != [] {
      assert c.logBuf[..|c.logBuf|] == c.logBuf;
    }
    assert FullLog(c) + [] == FullLog(c);
  }

  lemma EmitAppends(c: Core, lsn: nat, xid: int, body: Body)
    ensures var c' := EmitWithLsn(c, lsn, xid, body);
            && Appends(c, c', [MakeRec(c, lsn, xid, body)]) && c'.nextLsn == c.nextLsn && c'.ops == c.ops
  {
    hide FlushLog;
    var c1 := Buffered(c, lsn, xid, body);
    var r := MakeRec(c, lsn, xid, body);
    assert FullLog(c1) == FullLog(c) + [r];
    FlushAppends(c1);
    assert [r] + [] == [r];
    AppendsThen(c, c1, FlushLog(c1), [r], []);
  }

  /** Commit: two records, both durable when it returns. */
  lemma CommitRecords(c: Core, x: int) returns (a: Rec, b: Rec)
    ensures a.body == Commit && b.body == End && a.xid == b.xid == x && c.nextLsn == a.lsn < b.lsn
    ensures Appends(c, CommitTx(c, x), [a, b]) && CommitTx(c, x).logBuf == []
  {
    hide EmitWithLsn, FlushLog;
    a := MakeRec(c, c.nextLsn, x, Commit);
    var c1 := Emit(c, x, Commit);
    EmitAppends(c.(nextLsn := c.nextLsn + 1), c.nextLsn, x, Commit);
    FlushAppends(c1);
    AppendsThen(c, c1, FlushLog(c1), [a], []);
    var c2 := SetCommitted(FlushLog(c1), x);
    b := MakeRec(c2, c2.nextLsn, x, End);
    var c3 := Emit(c2, x, End);
    EmitAppends(c2.(nextLsn := c2.nextLsn + 1), c2.nextLsn, x, End);
    FlushAppends(c3);
    AppendsThen(c2, c3, FlushLog(c3), [b], []);
    assert [a] + [] + ([b] + []) == [a, b];
    AppendsThen(c, FlushLog(c1), CommitTx(c, x), [a] + [], [b] + []);
  }

  /** A logged write: one update record, or none when the stamped page is the old one. */
  lemma WriteAppends(c: Core, x: int, k: PageKey, p: Bytes, data: Bytes) returns (rs: seq<Rec>)
    requires |data| == |p| >= HEADER_SIZE && c.ops + 1 < c.cfg.checkpointInterval
    ensures var (c', page) := LogPageUpdate(c, Some(x), k, Some(p), data);
            page == Stamp(data, c.nextLsn) && Appends(c, c', rs) && c'.nextLsn == c.nextLsn + 1
    ensures rs == [] || (|rs| == 1 && rs[0].body.Update? && rs[0].body.key == k && rs[0].xid == x && rs[0].lsn == c.nextLsn)
    ensures Replay(rs, p) == Stamp(data, c.nextLsn)
  {
    hide EmitWithLsn, Stamp, DiffRange, FullLog, Recorded, Patch, Replay, MaybeCheckpoint, AddDirty;
    var stamped := Stamp(data, c.nextLsn);
    var c1 := c.(nextLsn := c.nextLsn + 1);
    WholeImage(p);
    match DiffRange(p, stamped)
    case None =>
      rs := [];
      Unlogged(c, c1);
      ReplayNothing(p);
    case Some((lo, hi)) =>
      var body := Update(k, lo, p[lo..hi], stamped[lo..hi]);
      rs := [MakeRec(c1, c.nextLsn, x, body)];
      WindowPatched(p, stamped, rs[0]);
      ReplayOne(rs[0], p);
      UpdateAppends(c1, c.nextLsn, x, k, body);
      Unlogged(c, c1);
      AppendsThen(c, c1, MaybeCheckpoint(AddDirty(EmitWithLsn(c1, c.nextLsn, x, body), k, c.nextLsn)), [], rs);
      assert [] + rs == rs;
  }

  lemma WindowPatched(p: Bytes, q: Bytes, r: Rec)
    requires |p| == |q| && DiffRange(p, q).Some? && r.body.Update?
    requires var (lo, hi) := DiffRange(p, q).value; r.body.off == lo && r.body.after == q[lo..hi]
    ensures Patch(p, r) == q
  {
    hide DiffRange, RestoreAt;
    DiffWindow(p, q);
  }

  lemma UpdateAppends(c: Core, lsn: nat, x: int, k: PageKey, body: Body)
    requires c.ops + 1 < c.cfg.checkpointInterval
    ensures var c' := MaybeCheckpoint(AddDirty(EmitWithLsn(c, lsn, x, body), k, lsn));
            Appends(c, c', [MakeRec(c, lsn, x, body)]) && c'.nextLsn == c.nextLsn
  {
    hide EmitWithLsn, FullLog, Recorded, MakeRec;
    EmitAppends(c, lsn, x, body);
    var c1 := EmitWithLsn(c, lsn, x, body);
    Unlogged(c1, MaybeCheckpoint(AddDirty(c1, k, lsn)));
    var r := MakeRec(c, lsn, x, body);
    AppendsThen(c, c1, MaybeCheckpoint(AddDirty(c1, k, lsn)), [r], []);
    assert [r] + [] == [r];
  }

  lemma ReplayOne(r: Rec, p: Bytes)
    ensures Replay([r], p) == Patch(p, r)
  {
    assert Front([r]) == [];
  }

  lemma WholeImage(p: Bytes)
    ensures BeforeImage(Some(p), |p|) == p
  {
  }

  /** Volatile bookkeeping. */
  lemma Unlogged(c: Core, c': Core)
    requires c' == c.(nextLsn := c'.nextLsn, nextXid := c'.nextXid, tx := c'.tx, dpt := c'.dpt, ops := c'.ops)
    ensures Appends(c, c', [])
  {
    assert FullLog(c) + [] == FullLog(c);
  }

  // ---------------------------------------------------------------- the tables of the next Analysis

  /** Records of one transaction change its entry only. */
  lemma {:induction false} OneTx(t: Tables, log: seq<Rec>, rs: seq<Rec>, from: int, x: int)
    requires forall i :: 0 <= i < |rs| ==> rs[i].xid == x
    ensures forall y :: y != x ==> (y in Scan(t, log + rs, from).tx <==> y in Scan(t, log, from).tx)
    ensures forall y :: y != x && y in Scan(t, log, from).tx ==> Scan(t, log + rs, from).tx[y] == Scan(t, log, from).tx[y]
    decreases |rs|
  {
    if rs == [] {
      assert log + rs == log;
    } else {
      OneTx(t, log, Front(rs), from, x);
      assert Front(log + rs) == log + Front(rs) && Last(log + rs) == Last(rs);
      assert rs[|rs| - 1].xid == x;
    }
  }

  lemma EndedTables(log: seq<Rec>, rs: seq<Rec>, x: int, master: int)
    requires UndoLosers(Analyse(log, master).tx) == {} && rs != [] && Last(rs).body.End?
    requires forall i :: 0 <= i < |rs| ==> rs[i].xid == x && !rs[i].body.BeginCkpt? && !rs[i].body.EndCkpt?
    requires Last(rs).lsn > ScanFrom(log, CheckpointEnd(log, master))
    ensures UndoLosers(Analyse(log + rs, master).tx) == {}
  {
    hide Scan, CheckpointEnd, AnalyseRec;
    SameCheckpoint(log, log + rs, master);
    var e := CheckpointEnd(log, master);
    var t, from := Snapshot(log, e), ScanFrom(log, e);
    OneTx(t, log, rs, from, x);
    EndLast(t, log, rs, from);
    var tx := Analyse(log + rs, master).tx;
    forall y ensures y !in UndoLosers(tx) {
      assert y in UndoLosers(tx) ==> y in UndoLosers(Analyse(log, master).tx);
    }
  }

  lemma EndLast(t: Tables, log: seq<Rec>, rs: seq<Rec>, from: int)
    requires rs != [] && Last(rs).body.End? && Last(rs).lsn > from
    ensures Last(rs).xid !in Scan(t, log + rs, from).tx
  {
    assert Last(log + rs) == Last(rs);
  }

  /** A restart with an empty undo phase leaves the pages of redo. */
  lemma NoUndo(cfg: Config, hist: seq<Durable>, ys: seq<int>)
    requires hist != [] && Last(hist).wal != [] && UndoLosers(Analyse(Last(hist).wal, Last(hist).master).tx) == {}
    ensures Recover(cfg, hist, ys).files == RedoAll(Analysed(cfg, hist), Last(hist).wal).files
  {
    hide Analyse, RedoAll, UndoAll, CloseAll, UndoLosers;
    var c := Analysed(cfg, hist);
    RestartRecorded(cfg, hist);
    RedoRecorded(c, c.wal);
    var c1 := RedoAll(c, c.wal);
    UndoNobody(c1, c.wal);
    CloseAllPages(c1, ys);
    FlushAppends(CloseAll(c1, ys));
  }

  // ---------------------------------------------------------------- the lost change

  /** A page with a mixed LSN has been updated. */
  lemma MixedUpdated(losers: set<int>)
    ensures MixedLsn([], losers) == 0
  {
    hide LeBytes;
    LeZero(LSN_SIZE);
    forall i | 0 <= i < LSN_SIZE ensures MixedBytes([], losers)[i] == LeBytes(0, LSN_SIZE)[i] {
      assert LsnBefore([], FirstLoser([], losers, LSN_OFFSET + i)) == 0;
    }
    FromLeZeros(MixedBytes([], losers));
  }

  lemma {:induction false} LeZero(n: nat)
    ensures forall i :: 0 <= i < n ==> LeBytes(0, n)[i] == 0
  {
    if n > 0 {
      LeZero(n - 1);
    }
  }

  lemma MixedBound(us: seq<Rec>, losers: set<int>)
    ensures MixedLsn(us, losers) < LSN_LIMIT
  {
    hide MixedBytes;
    FromLeBound(MixedBytes(us, losers));
    assert Pow256(8) == LSN_LIMIT by {
      assert Pow256(4) == 0x1_0000_0000;
    }
  }

  /** The page of a log's update: writable, and in its file after a recovery. */
  lemma UpdatedPage(wal: seq<Rec>, c: Core, k: PageKey, ps: nat)
    requires ps >= HEADER_SIZE && LogInv(wal, ps) && Upd(wal, k) != [] && Present(c, wal)
    ensures ValidFileId(k.file) && Listable(k.file) && OnDisk(c.files, k) && k.pid < NumPages(c, k.file) && wal != []
    ensures forall i :: 0 <= i < |Upd(wal, k)| ==> Upd(wal, k)[i].lsn <= Last(wal).lsn
  {
    hide LogInv, Logged;
    var j := UpdIndex(wal, k, 0);
    RecAt(wal, j, ps);
    forall i | 0 <= i < |Upd(wal, k)| ensures Upd(wal, k)[i].lsn <= Last(wal).lsn {
      var m := UpdIndex(wal, k, i);
      if m < |wal| - 1 {
        LsnsIncrease(wal, m, |wal| - 1, ps);
      }
    }
  }

  /** The engine after a recovery, with an empty pool. */
  function Restarted(c: Core, poolSize: nat, policy: Policy): Sys {
    Sys(c, poolSize, policy, [], map[], map[])
  }

  ghost predicate Ready(c: Core, k: PageKey) {
    && c.cfg.pageSize >= HEADER_SIZE && c.logBuf == [] && Recorded(c) && c.ops + 2 < c.cfg.checkpointInterval
    && ValidFileId(k.file) && OnDisk(c.files, k) && k.pid < NumPages(c, k.file)
    && |DiskPage(c.files, c.cfg.pageSize, k)| == c.cfg.pageSize
  }

  /** The core after begin and the write. */
  function WrittenCore(c: Core, k: PageKey, data: Bytes): Core
    requires |data| >= HEADER_SIZE
  {
    LogPageUpdate(BeginTx(c), Some(c.nextXid), k, Some(DiskPage(c.files, c.cfg.pageSize, k)), data).0
  }

  /** Begin, write page k and commit, in an empty pool: the frame holds the new page, the disk does not. */
  lemma WrittenInPool(c: Core, poolSize: nat, policy: Policy, k: PageKey, data: Bytes)
    requires Ready(c, k) && poolSize >= 1 && |data| == c.cfg.pageSize
    ensures var s := Restarted(c, poolSize, policy); var x := c.nextXid;
            && FramesOk(s)
            && var s1 := Apply(s, Begin);
            && FramesOk(s1) && x in s1.core.tx && s1.core.tx[x].status == Active && x < s1.core.nextXid && s1.core.nextLsn == c.nextLsn
            && var s2 := Apply(s1, Write(x, k, data));
            && FramesOk(s2) && Logical(s2, k) == Stamp(data, c.nextLsn) && s2.core == WrittenCore(c, k, data)
  {
    hide LogPageUpdate, DiskPage, Stamp, FullLog, Recorded, Logical, StoreFrame;
    var c1 := BeginTx(c);
    assert c1 == NewTx(c).(ops := c.ops + 1);
    var p := DiskPage(c.files, c.cfg.pageSize, k);
    var us := WriteAppends(c1, c.nextXid, k, p, data);
    var s1 := Restarted(c1, poolSize, policy);
    assert Apply(Restarted(c, poolSize, policy), Begin) == s1;
    assert CurrentBytes(s1, k) == Some(p);
    StoredAlone(Restarted(WrittenCore(c, k, data), poolSize, policy), k, Stamp(data, c.nextLsn));
  }

  lemma StoredAlone(s: Sys, k: PageKey, page: Bytes)
    requires FramesOk(s) && s.order == [] && s.frames == map[] && |page| == s.core.cfg.pageSize
    ensures var (s', r) := StoreFrame(s, k, page);
            FramesOk(s') && s'.core == s.core && Logical(s', k) == page && r == Some(page)
  {
    hide DiskPage;
    PutFrameOk(s, k, page, true);
  }

  /** The log of it, all durable, with the disk otherwise as it was. */
  lemma CommittedLog(c: Core, k: PageKey, data: Bytes) returns (rs: seq<Rec>)
    requires Ready(c, k) && |data| == c.cfg.pageSize
    ensures var c' := CommitTx(WrittenCore(c, k, data), c.nextXid);
            Recorded(c') && c'.files == c.files && c'.master == c.master && c'.wal == c.wal + rs
    ensures 2 <= |rs| <= 3 && rs[|rs| - 2].body.Commit? && rs[|rs| - 1].body.End?
    ensures forall i :: 0 <= i < |rs| ==> rs[i].xid == c.nextXid && rs[i].lsn >= c.nextLsn
    ensures |rs| == 3 ==> rs[0].body.Update? && rs[0].body.key == k && rs[0].lsn == c.nextLsn
    ensures var p := DiskPage(c.files, c.cfg.pageSize, k);
            |p| == |data| && Upd(rs, k) == rs[..|rs| - 2] && Replay(Upd(rs, k), p) == Stamp(data, c.nextLsn)
  {
    hide LogPageUpdate, CommitTx, DiskPage, Stamp, FullLog, Recorded, OnDisk, ValidFileId;
    var c1 := BeginTx(c);
    assert c1 == NewTx(c).(ops := c.ops + 1);
    Unlogged(c, c1);
    var us := WriteAppends(c1, c.nextXid, k, DiskPage(c.files, c.cfg.pageSize, k), data);
    var c2 := WrittenCore(c, k, data);
    var a, b := CommitRecords(c2, c.nextXid);
    rs := us + [a, b];
    UpdOfTx(us, a, b, k);
    AppendsThen(c, c1, c2, [], us);
    AppendsThen(c, c2, CommitTx(c2, c.nextXid), [] + us, [a, b]);
    assert [] + us + [a, b] == rs;
    NothingBuffered(c);
    NothingBuffered(CommitTx(c2, c.nextXid));
  }

  lemma UpdOfTx(us: seq<Rec>, a: Rec, b: Rec, k: PageKey)
    requires !a.body.Update? && !b.body.Update? && |us| <= 1
    requires forall i :: 0 <= i < |us| ==> us[i].body.Update? && us[i].body.key == k
    ensures var rs := us + [a, b]; Upd(rs, k) == us && rs[..|us|] == us && rs[|us|] == a && rs[|us| + 1] == b
  {
    assert Upd(us, k) == us by {
      if us != [] {
        Snoc([], us[0]);
        assert us == [] + [us[0]];
        assert Upd([], k) == [] && Front(us) == [];
      }
    }
    Snoc(us + [a], b);
    assert us + [a, b] == us + [a] + [b];
    Snoc(us, a);
  }

  /** What a recovery leaves for an updated page. */
  lemma LeftReady(cfg: Config, hist: seq<Durable>, xs: seq<int>, k: PageKey)
    requires AllCrashOk(cfg, hist) && cfg.checkpointInterval >= 3 && Upd(Last(hist).wal, k) != []
    ensures var d, c1 := Last(hist), Recover(cfg, hist, xs);
            && Ready(c1, k) && c1.cfg == cfg && d.wal != [] && LeftBehind(d, c1) && LogInv(d.wal, cfg.pageSize) && Listable(k.file)
            && c1.nextLsn == NextLsnAfter(d.wal, |xs|) && Last(d.wal).lsn < c1.nextLsn
            && forall i :: 0 <= i < |Upd(d.wal, k)| ==> Upd(d.wal, k)[i].lsn < c1.nextLsn
  {
    hide Recover, DiskPage, CrashInv, MixedLsn, LogInv, Present, OnlyEnds, EndsIn, Recorded, PageLsn, FollowsLog, Losers, Upd;
    var d := Last(hist);
    assert CrashInv(d, cfg.pageSize);
    WalInv(d, cfg.pageSize);
    UpdEmpty(d.wal, k);
    FirstLeaves(cfg, hist, xs);
    RecoverCounted(cfg, hist, xs);
    RecoveredLsn(cfg, hist, xs, k);
    UpdatedPage(d.wal, Recover(cfg, hist, xs), k, cfg.pageSize);
  }

  lemma UpdEmpty(wal: seq<Rec>, k: PageKey)
    requires Upd(wal, k) != []
    ensures wal != []
  {
  }

  /** One transaction has run to its end after a recovery, and only its records have reached the disk. */
  ghost predicate RanOneTx(c1: Core, c2: Core, rs: seq<Rec>) {
    && Recorded(c2) && c2.files == c1.files && c2.master == c1.master && c2.wal == c1.wal + rs
    && |rs| >= 2 && Last(rs).body.End?
    && (forall i :: 0 <= i < |rs| ==> rs[i].xid == c1.nextXid && rs[i].lsn >= c1.nextLsn)
    && (forall i :: 0 <= i < |rs| ==> !rs[i].body.BeginCkpt? && !rs[i].body.EndCkpt?)
  }

  /** The recovery after that runs redo over the page and undoes nothing. */
  lemma NextPage(cfg: Config, hist: seq<Durable>, xs: seq<int>, c2: Core, rs: seq<Rec>, ys: seq<int>, k: PageKey)
    requires AllCrashOk(cfg, hist) && cfg.checkpointInterval >= 3 && Upd(Last(hist).wal, k) != []
    requires RanOneTx(Recover(cfg, hist, xs), c2, rs)
    ensures var us, p := Upd(Last(hist).wal, k), DiskPage(Recover(cfg, hist, xs).files, cfg.pageSize, k);
            var dpt := Analyse(c2.wal, c2.master).dpt;
            && |p| == cfg.pageSize && PageLsn(p) == MixedLsn(us, Losers(Last(hist).wal))
            && DiskPage(Recover(cfg, c2.hist, ys).files, cfg.pageSize, k)
               == if k in dpt then Again(us + Upd(rs, k), dpt[k], p) else p
  {
    hide Recover, DiskPage, CrashInv, MixedLsn, LogInv, Present, OnlyEnds, EndsIn, PageLsn, FollowsLog, Losers, Upd, Analyse,
         CheckpointEnd, RedoAll, Again, ScanFrom, UndoLosers, OnDisk;
    LeftReady(cfg, hist, xs, k);
    var d, c1, ps := Last(hist), Recover(cfg, hist, xs), cfg.pageSize;
    assert c2.wal[|c1.wal|..] == rs;
    NextRedo(cfg, hist, xs, c2.hist, k);
    ScanFromBelow(d.wal, d.master, ps);
    SecondTables(d, c1, ps);
    SameStart(d, c1);
    EndedTables(c1.wal, rs, c1.nextXid, c1.master);
    NoUndo(cfg, c2.hist, ys);
  }

  lemma SameStart(d: Durable, c: Core)
    requires LeftBehind(d, c)
    ensures ScanFrom(c.wal, CheckpointEnd(c.wal, c.master)) == ScanFrom(d.wal, CheckpointEnd(d.wal, d.master))
  {
    hide CheckpointEnd, ScanFrom, Present, EndsIn;
    EndsOnly(d.wal, c.wal, Last(d.wal).lsn);
    SameCheckpoint(d.wal, c.wal, d.master);
  }

  lemma CommittedAt(log: seq<Rec>, i: nat)
    requires i < |log| && log[i].body.Commit?
    ensures log[i].xid in CommittedIn(log)
  {
    PrefixViews(log, i + 1, PageKey("", 0));
    assert Front(log[..i + 1]) == log[..i];
  }

  /** The next Analysis lists the page from its new update or before, and from where the last one did if it did. */
  lemma NextDpt(cfg: Config, hist: seq<Durable>, xs: seq<int>, c2: Core, rs: seq<Rec>, k: PageKey)
    requires AllCrashOk(cfg, hist) && cfg.checkpointInterval >= 3 && Upd(Last(hist).wal, k) != []
    requires RanOneTx(Recover(cfg, hist, xs), c2, rs)
    requires |rs| == 3 && rs[0].body.Update? && rs[0].body.key == k && !rs[1].body.Update?
    ensures var d, d2 := Last(hist), Analyse(c2.wal, c2.master).dpt; var d1 := Analyse(d.wal, d.master).dpt;
            k in d2 && d2[k] <= rs[0].lsn && d2[k] == if k in d1 then d1[k] else rs[0].lsn
  {
    hide Recover, DiskPage, CrashInv, MixedLsn, LogInv, Present, OnlyEnds, EndsIn, FollowsLog, Losers, Upd,
         CheckpointEnd, UndoLosers, OnDisk, Scan, ScanFrom, Recorded;
    LeftReady(cfg, hist, xs, k);
    var d, c1, ps := Last(hist), Recover(cfg, hist, xs), cfg.pageSize;
    ScanFromBelow(d.wal, d.master, ps);
    SecondTables(d, c1, ps);
    SameStart(d, c1);
    AnalysisDptBound(d.wal, d.master, ps);
    SameCheckpoint(c1.wal, c2.wal, c1.master);
    var e := CheckpointEnd(c1.wal, c1.master);
    ThreeScanned(Snapshot(c1.wal, e), c1.wal, rs, ScanFrom(c1.wal, e), k);
  }

  lemma ThreeScanned(t: Tables, log: seq<Rec>, rs: seq<Rec>, from: int, k: PageKey)
    requires |rs| == 3 && rs[0].body.Update? && rs[0].body.key == k && !rs[1].body.Update? && rs[2].body.End? && rs[0].lsn > from
    ensures var a, b := Scan(t, log, from).dpt, Scan(t, log + rs, from).dpt;
            b == if k in a then a else a[k := rs[0].lsn]
  {
    assert log + rs == log + [rs[0]] + [rs[1]] + [rs[2]];
    Snoc(log + [rs[0]] + [rs[1]], rs[2]);
    Snoc(log + [rs[0]], rs[1]);
    Snoc(log, rs[0]);
    hide Scan, AnalyseRec;
    ScanLast(t, log + [rs[0]], from);
    ScanLast(t, log + [rs[0]] + [rs[1]], from);
    ScanLast(t, log + rs, from);
  }

  // ---------------------------------------------------------------- begin, write, commit, crash, recover

  /** A transaction that begins after a recovery, writes page k and commits. */
  ghost predicate WritesAndCommits(c1: Core, poolSize: nat, policy: Policy, k: PageKey, data: Bytes, c2: Core) {
    var s, x := Restarted(c1, poolSize, policy), c1.nextXid;
    && FramesOk(s)
    && var s1 := Apply(s, Begin);
    && FramesOk(s1) && Enabled(s1, Write(x, k, data))
    && var s2 := Apply(s1, Write(x, k, data));
    && FramesOk(s2) && |data| >= HEADER_SIZE && Logical(s2, k) == Stamp(data, c1.nextLsn)
    && c2 == Apply(s2, CommitOp(x)).core
    && x in CommittedIn(c2.wal) && c2.hist != []
  }

  lemma CommittedRun(cfg: Config, hist: seq<Durable>, xs: seq<int>, poolSize: nat, policy: Policy, k: PageKey, data: Bytes)
      returns (c2: Core, rs: seq<Rec>)
    requires AllCrashOk(cfg, hist) && cfg.checkpointInterval >= 3 && Upd(Last(hist).wal, k) != []
    requires poolSize >= 1 && |data| == cfg.pageSize && NextLsnAfter(Last(hist).wal, |xs|) < LSN_LIMIT
    ensures var c1 := Recover(cfg, hist, xs); var p := DiskPage(c1.files, cfg.pageSize, k);
            && WritesAndCommits(c1, poolSize, policy, k, data, c2) && RanOneTx(c1, c2, rs)
            && |rs| <= 3 && (|rs| == 3 ==> rs[0].body.Update? && rs[0].body.key == k && rs[0].lsn == c1.nextLsn)
            && rs[|rs| - 2].body.Commit? && |p| == |data| && Upd(rs, k) == rs[..|rs| - 2] && Replay(Upd(rs, k), p) == Stamp(data, c1.nextLsn)
  {
    hide Recover, DiskPage, CrashInv, MixedLsn, LogInv, LeftBehind, Losers, Upd, WritePage, CommitTx, WrittenCore, BeginTx, Ready,
         FramesOk, Stamp, Logical, CommittedIn, Replay;
    var c1 := Recover(cfg, hist, xs);
    LeftReady(cfg, hist, xs, k);
    WrittenInPool(c1, poolSize, policy, k, data);
    rs := CommittedLog(c1, k, data);
    c2 := CommitTx(WrittenCore(c1, k, data), c1.nextXid);
    forall i | 0 <= i < |rs| ensures !rs[i].body.BeginCkpt? && !rs[i].body.EndCkpt? {
      assert i < |rs| - 2 || i == |rs| - 2 || i == |rs| - 1;
    }
    assert RanOneTx(c1, c2, rs);
    assert c2.wal[|c1.wal| + |rs| - 2] == rs[|rs| - 2];
    CommittedAt(c2.wal, |c1.wal| + |rs| - 2);
  }

  /** Lost: where a recovery leaves a mixed LSN that is not below the next LSN, what such a transaction writes is
      gone after the next crash, unless the page was written back. */
  lemma CommitLost(cfg: Config, hist: seq<Durable>, xs: seq<int>, ys: seq<int>, poolSize: nat, policy: Policy, k: PageKey, data: Bytes)
      returns (c2: Core)
    requires AllCrashOk(cfg, hist) && poolSize >= 1 && cfg.checkpointInterval >= 3 && |data| == cfg.pageSize
    requires var wal := Last(hist).wal; wal != [] && MixedLsn(Upd(wal, k), Losers(wal)) >= NextLsnAfter(wal, |xs|)
    ensures var c1 := Recover(cfg, hist, xs);
            && WritesAndCommits(c1, poolSize, policy, k, data, c2)
            && DiskPage(Recover(cfg, c2.hist, ys).files, cfg.pageSize, k) == DiskPage(c1.files, cfg.pageSize, k)
  {
    hide Recover, DiskPage, CrashInv, MixedLsn, LogInv, LeftBehind, Losers, Upd, Ready, Stamp, WritesAndCommits, Replay, Analyse, Again,
         PageLsn;
    var us, wal, c1 := Upd(Last(hist).wal, k), Last(hist).wal, Recover(cfg, hist, xs);
    if us == [] {
      MixedUpdated(Losers(wal));
    }
    MixedBound(us, Losers(wal));
    LeftReady(cfg, hist, xs, k);
    var rs;
    c2, rs := CommittedRun(cfg, hist, xs, poolSize, policy, k, data);
    NextPage(cfg, hist, xs, c2, rs, ys, k);
    var dpt := Analyse(c2.wal, c2.master).dpt;
    if k in dpt {
      var all: seq<Rec> := us + Upd(rs, k);
      var p := DiskPage(c1.files, cfg.pageSize, k);
      assert forall i :: 0 <= i < |all| ==> all[i].lsn <= PageLsn(p);
      ShieldedExactly(all, dpt[k], p);
    }
  }

  /** Kept: where it is below the next LSN and no update the page is listed for lies above it, what such a transaction
      writes is on the page after the next crash. */
  lemma CommitKept(cfg: Config, hist: seq<Durable>, xs: seq<int>, ys: seq<int>, poolSize: nat, policy: Policy, k: PageKey, data: Bytes)
      returns (c2: Core)
    requires AllCrashOk(cfg, hist) && poolSize >= 1 && cfg.checkpointInterval >= 3 && |data| == cfg.pageSize
    requires var wal, next := Last(hist).wal, NextLsnAfter(Last(hist).wal, |xs|);
             Upd(wal, k) != [] && MixedLsn(Upd(wal, k), Losers(wal)) < next < LSN_LIMIT
    requires var d := Last(hist); var us, dpt := Upd(d.wal, k), Analyse(d.wal, d.master).dpt;
             k in dpt ==> forall i :: 0 <= i < |us| && dpt[k] <= us[i].lsn ==> us[i].lsn <= MixedLsn(us, Losers(d.wal))
    ensures var c1 := Recover(cfg, hist, xs);
            && WritesAndCommits(c1, poolSize, policy, k, data, c2)
            && DiskPage(Recover(cfg, c2.hist, ys).files, cfg.pageSize, k) == Stamp(data, c1.nextLsn)
  {
    hide Recover, DiskPage, CrashInv, MixedLsn, LogInv, LeftBehind, Losers, Upd, Ready, Stamp, WritesAndCommits, Replay, Analyse, Again,
         PageLsn;
    var us, wal, c1 := Upd(Last(hist).wal, k), Last(hist).wal, Recover(cfg, hist, xs);
    LeftReady(cfg, hist, xs, k);
    var rs;
    c2, rs := CommittedRun(cfg, hist, xs, poolSize, policy, k, data);
    NextPage(cfg, hist, xs, c2, rs, ys, k);
    var p := DiskPage(c1.files, cfg.pageSize, k);
    StampedLsn(data, c1.nextLsn);
    if |rs| == 2 {
      ReplayNothing(p);
    }
    NextDpt(cfg, hist, xs, c2, rs, k);
    var vs, rec := Upd(rs, k), Analyse(c2.wal, c2.master).dpt[k];
    assert vs[..1] == vs;
    AgainLater(us, vs, rec, p, 0);
  }
}
