/** The invariant of every run, below the buffer pool, and its preservation by logging,
    flushing, checkpointing, beginning and committing. */
module CoreInvariant {
  import opened Pages
  import opened Log
  import opened Engine

  // ---------------------------------------------------------------- what a crash leaves behind

  /** Every checkpoint taken after the first missing update of `k` lists `k` early enough. */
  ghost predicate CkptOk(log: seq<Rec>, k: PageKey, n: nat)
    requires n <= |Upd(log, k)|
  {
    n < |Upd(log, k)| ==>
      forall i :: 0 <= i < |log| && log[i].body.EndCkpt? && Upd(log, k)[n].lsn < log[i].lsn ==>
        DptCovers(log[i].body.dpt, log, k, n)
  }

  /** Redo started from `dpt` does not miss update n of page `k`. */
  predicate DptCovers(dpt: map<PageKey, nat>, log: seq<Rec>, k: PageKey, n: nat) {
    n < |Upd(log, k)| ==> k in dpt && dpt[k] <= Upd(log, k)[n].lsn
  }

  /** The page on disk is exactly the replay of its first n logged updates. */
  ghost predicate HoldsFirst(log: seq<Rec>, files: Files, ps: nat, k: PageKey, n: nat) {
    && n <= |Upd(log, k)|
    && DiskPage(files, ps, k) == Replay(Upd(log, k)[..n], Zeros(ps))
    && CkptOk(log, k, n)
  }

  ghost predicate PageOk(log: seq<Rec>, files: Files, ps: nat, k: PageKey) {
    exists n: nat :: HoldsFirst(log, files, ps, k, n)
  }

  predicate FilesOk(files: Files, ps: nat) {
    forall f :: f in files ==> forall i :: 0 <= i < |files[f]| ==> |files[f][i]| == ps
  }

  /** What recovery may rely on, at every moment a crash can strike. */
  ghost predicate CrashInv(d: Durable, ps: nat) {
    && ps >= HEADER_SIZE
    && LogInv(d.wal, ps)
    && FilesOk(d.files, ps)
    && forall k :: PageOk(d.wal, d.files, ps, k)
  }

  // ---------------------------------------------------------------- the running engine

  ghost predicate RunHolds(c: Core, k: PageKey, n: nat) {
    && HoldsFirst(FullLog(c), c.files, c.cfg.pageSize, k, n)
    && n <= |Upd(c.wal, k)|
    && DptCovers(c.dpt, FullLog(c), k, n)
  }

  ghost predicate RunPage(c: Core, k: PageKey) {
    exists n: nat :: RunHolds(c, k, n)
  }

  ghost predicate LogPart(c: Core) {
    && c.cfg.pageSize >= HEADER_SIZE
    && LogInv(FullLog(c), c.cfg.pageSize)
    && (FullLog(c) != [] ==> Last(FullLog(c)).lsn < c.nextLsn)
    && c.flushedLsn == (if c.wal == [] then NO_LSN else Last(c.wal).lsn)
    && (forall i :: 0 <= i < |FullLog(c)| ==> FullLog(c)[i].xid < c.nextXid)
    && DptBelow(c.dpt, c.nextLsn)
  }

  ghost predicate FilePart(c: Core) {
    && FilesOk(c.files, c.cfg.pageSize)
    && c.files.Keys == c.numPages.Keys
    && forall f :: f in c.files ==> |c.files[f]| <= c.numPages[f]
  }

  ghost predicate HistOk(c: Core) {
    forall j :: 0 <= j < |c.hist| ==> CrashInv(c.hist[j], c.cfg.pageSize)
  }

  ghost predicate HistPart(c: Core) {
    c.hist != [] && Last(c.hist) == Now(c) && HistOk(c)
  }

  ghost predicate Live(c: Core) {
    LogPart(c) && FilePart(c) && forall k :: RunPage(c, k)
  }

  ghost predicate Inv(c: Core) {
    Live(c) && HistPart(c)
  }

  ghost predicate TxInv(c: Core) {
    TxOk(c.tx, FullLog(c))
  }

  /** Durable states and wal.log only grow, also at every moment in between. */
  ghost predicate Grows(c: Core, c': Core) {
    && c'.cfg == c.cfg && c.wal <= c'.wal
    && LaterStates(c.hist, c'.hist, c.wal)
  }

  ghost predicate LaterStates(hist: seq<Durable>, hist': seq<Durable>, wal: seq<Rec>) {
    && hist <= hist'
    && forall j :: |hist| <= j < |hist'| ==> wal <= hist'[j].wal
  }

  // ---------------------------------------------------------------- page facts and the log

  lemma HoldsPrefix(log: seq<Rec>, m: nat, files: Files, ps: nat, k: PageKey, n: nat)
    requires m <= |log| && HoldsFirst(log, files, ps, k, n) && n <= |Upd(log[..m], k)|
    ensures HoldsFirst(log[..m], files, ps, k, n)
  {
    PrefixViews(log, m, k);
    assert Upd(log[..m], k)[..n] == Upd(log, k)[..n];
    if n < |Upd(log[..m], k)| {
      forall i | 0 <= i < m && log[..m][i].body.EndCkpt? && Upd(log[..m], k)[n].lsn < log[..m][i].lsn
        ensures DptCovers(log[..m][i].body.dpt, log[..m], k, n)
      {
        assert log[i].body.EndCkpt?;
        assert DptCovers(log[i].body.dpt, log, k, n);
      }
    }
  }

  lemma HoldsSnoc(log: seq<Rec>, r: Rec, files: Files, ps: nat, k: PageKey, n: nat)
    requires ps >= HEADER_SIZE && LogInv(log, ps) && RecOk(log, r, ps) && HoldsFirst(log, files, ps, k, n)
    requires r.body.EndCkpt? ==> DptCovers(r.body.dpt, log, k, n)
    ensures HoldsFirst(log + [r], files, ps, k, n)
  {
    var log' := log + [r];
    Snoc(log, r);
    assert LogInv(log', ps);
    assert Upd(log', k)[..n] == Upd(log, k)[..n];
    if n < |Upd(log', k)| {
      forall i | 0 <= i < |log'| && log'[i].body.EndCkpt? && Upd(log', k)[n].lsn < log'[i].lsn
        ensures DptCovers(log'[i].body.dpt, log', k, n)
      {
        if n == |Upd(log, k)| {
          LsnsIncrease(log', i, |log|, ps);
        } else if i < |log| {
          assert DptCovers(log[i].body.dpt, log, k, n);
        }
      }
    }
  }

  /** A crash that finds some prefix of the log buffer already in wal.log. */
  lemma CrashDuringFlush(c: Core, i: nat)
    requires Live(c) && i <= |c.logBuf|
    ensures CrashInv(Durable(c.wal + c.logBuf[..i], c.files, c.master), c.cfg.pageSize)
  {
    var log, m, ps := FullLog(c), |c.wal| + i, c.cfg.pageSize;
    assert log[..m] == c.wal + c.logBuf[..i];
    LogInvPrefix(log, m, ps);
    forall k ensures PageOk(log[..m], c.files, ps, k) {
      assert RunPage(c, k);
      var n: nat :| RunHolds(c, k, n);
      PrefixViews(log[..m], |c.wal|, k);
      assert log[..m][..|c.wal|] == c.wal;
      HoldsPrefix(log, m, c.files, ps, k, n);
    }
  }

  /** Each of these states is one the flush passes through, in this order. */
  lemma EveryPrefixDurable(c: Core, i: nat)
    requires 0 < i <= |c.logBuf|
    ensures var h := FlushLog(c).hist;
            |h| == |c.hist| + |c.logBuf| && h[|c.hist| + i - 1] == Durable(c.wal + c.logBuf[..i], c.files, c.master)
  {
  }

  /** A durable change that leaves the engine live is a state a crash may leave behind. */
  lemma MarkInv(c: Core)
    requires Live(c) && HistOk(c)
    ensures Inv(Mark(c))
  {
    hide CrashInv, LogPart, FilePart;
    CrashDuringFlush(c, 0);
    assert c.wal + c.logBuf[..0] == c.wal;
    LiveAfter(c, Mark(c));
  }

  lemma LiveAfter(c: Core, c': Core)
    requires Live(c) && c' == c.(hist := c'.hist, master := c'.master)
    ensures Live(c')
  {
    forall k ensures RunPage(c', k) {
      assert RunPage(c, k);
      var n: nat :| RunHolds(c, k, n);
      assert RunHolds(c', k, n);
    }
  }

  lemma FlushLogInv(c: Core)
    requires Inv(c)
    ensures var c' := FlushLog(c);
            Inv(c') && FullLog(c') == FullLog(c) && c'.wal == FullLog(c) && c'.logBuf == [] && Grows(c, c')
  {
    hide CrashInv, FilePart, LogPart, RunPage;
    if c.logBuf == [] {
      assert FullLog(c) == c.wal;
    } else {
      FlushedHist(c);
      FlushedLive(c);
    }
  }

  lemma FlushedHist(c: Core)
    requires Live(c) && HistPart(c) && c.logBuf != []
    ensures var c' := FlushLog(c); HistPart(c') && Grows(c, c')
  {
    hide CrashInv, Live;
    var c' := FlushLog(c);
    assert c.logBuf[..|c.logBuf|] == c.logBuf;
    forall j | 0 <= j < |c'.hist| ensures CrashInv(c'.hist[j], c.cfg.pageSize) {
      if j >= |c.hist| {
        CrashDuringFlush(c, j - |c.hist| + 1);
      }
    }
  }

  lemma FlushedLive(c: Core)
    requires Live(c) && c.logBuf != []
    ensures var c' := FlushLog(c); Live(c') && FullLog(c') == FullLog(c) && c'.wal == FullLog(c)
  {
    hide CkptOk, FilesOk, LogInv, Upd, AppendStates, DptBelow, DiskPage, Replay, DptCovers;
    var c' := FlushLog(c);
    assert FullLog(c') == FullLog(c);
    assert Last(FullLog(c)) == Last(c.logBuf);
    forall k ensures RunPage(c', k) {
      assert RunPage(c, k);
      var n: nat :| RunHolds(c, k, n);
      FlushedPage(c, c', k, n);
    }
  }

  lemma FlushedPage(c: Core, c': Core, k: PageKey, n: nat)
    requires RunHolds(c, k, n) && FullLog(c') == c'.wal == FullLog(c)
    requires c'.files == c.files && c'.dpt == c.dpt && c'.cfg == c.cfg
    ensures RunHolds(c', k, n)
  {
    hide CkptOk, DiskPage, Replay, DptCovers;
  }

  lemma FlushIfFullInv(c: Core)
    requires Inv(c)
    ensures var c' := FlushIfFull(c);
            Inv(c') && FullLog(c') == FullLog(c) && Grows(c, c')
  {
    FlushLogInv(c);
  }

  /** Appending a record that is not an update. */
  lemma BufferedInv(c: Core, c': Core, r: Rec)
    requires Inv(c) && RecOk(FullLog(c), r, c.cfg.pageSize) && !r.body.Update?
    requires r.lsn == c.nextLsn && r.xid < c.nextXid
    requires r.body.EndCkpt? ==> r.body.dpt == c.dpt
    requires c' == c.(logBuf := c.logBuf + [r], nextLsn := c.nextLsn + 1, tx := c'.tx)
    ensures Inv(c') && FullLog(c') == FullLog(c) + [r]
  {
    hide RecOk, CkptOk, DiskPage;
    var log := FullLog(c);
    assert FullLog(c') == log + [r];
    Snoc(log, r);
    forall k ensures RunPage(c', k) {
      assert RunPage(c, k);
      var n: nat :| RunHolds(c, k, n);
      HoldsSnoc(log, r, c.files, c.cfg.pageSize, k, n);
      assert RunHolds(c', k, n);
    }
  }

  lemma EmitInv(c: Core, xid: int, body: Body)
    requires Inv(c) && !body.Update? && xid < c.nextXid
    requires body.EndCkpt? ==> body.dpt == c.dpt
    requires RecOk(FullLog(c), MakeRec(c, c.nextLsn, xid, body), c.cfg.pageSize)
    ensures var c' := Emit(c, xid, body);
            && Inv(c') && FullLog(c') == FullLog(c) + [MakeRec(c, c.nextLsn, xid, body)]
            && Grows(c, c')
  {
    hide FilePart, HistPart, LogPart, RunPage, RecOk, FlushLog;
    var c1 := Buffered(c.(nextLsn := c.nextLsn + 1), c.nextLsn, xid, body);
    BufferedInv(c, c1, MakeRec(c, c.nextLsn, xid, body));
    FlushIfFullInv(c1);
  }

  // ---------------------------------------------------------------- steps that log no update

  ghost predicate SameHistories(c: Core, c': Core) {
    c'.files == c.files && c'.numPages == c.numPages && forall k :: Upd(FullLog(c'), k) == Upd(FullLog(c), k)
  }

  /** What every operation without page updates guarantees. */
  ghost predicate Quiet(c: Core, c': Core) {
    Inv(c') && Grows(c, c') && SameHistories(c, c')
  }

  lemma QuietThen(c: Core, c1: Core, c2: Core)
    requires Quiet(c, c1) && Quiet(c1, c2)
    ensures Quiet(c, c2)
  {
    GrowsThen(c, c1, c2);
  }

  lemma GrowsThen(c: Core, c1: Core, c2: Core)
    requires Grows(c, c1) && Grows(c1, c2)
    ensures Grows(c, c2)
  {
  }

  lemma QuietFlush(c: Core)
    requires Inv(c)
    ensures Quiet(c, FlushLog(c)) && FullLog(FlushLog(c)) == FullLog(c) && FlushLog(c).wal == FullLog(c)
    ensures FlushLog(c) == c.(wal := FlushLog(c).wal, hist := FlushLog(c).hist,
                              flushedLsn := FlushLog(c).flushedLsn, logBuf := [])
  {
    hide FilePart, HistPart, LogPart, RunPage;
    FlushLogInv(c);
  }

  lemma QuietEmit(c: Core, xid: int, body: Body)
    requires Inv(c) && !body.Update? && xid < c.nextXid
    requires body.EndCkpt? ==> body.dpt == c.dpt
    requires RecOk(FullLog(c), MakeRec(c, c.nextLsn, xid, body), c.cfg.pageSize)
    ensures Quiet(c, Emit(c, xid, body))
    ensures FullLog(Emit(c, xid, body)) == FullLog(c) + [MakeRec(c, c.nextLsn, xid, body)]
    ensures var c' := Emit(c, xid, body);
            && c'.nextXid == c.nextXid && c'.nextLsn == c.nextLsn + 1 && c'.dpt == c.dpt && c'.numPages == c.numPages
            && c'.tx == if xid in c.tx && xid >= 0 then c.tx[xid := c.tx[xid].(lastLsn := c.nextLsn)] else c.tx
  {
    hide FilePart, HistPart, LogPart, RunPage, RecOk;
    EmitInv(c, xid, body);
    Snoc(FullLog(c), MakeRec(c, c.nextLsn, xid, body));
  }

  /** Volatile bookkeeping that neither the log nor the pages depend on. */
  lemma SameCore(c: Core, c': Core)
    requires Inv(c) && c' == c.(ops := c'.ops, tx := c'.tx, nextXid := c'.nextXid) && c.nextXid <= c'.nextXid
    ensures Quiet(c, c') && FullLog(c') == FullLog(c)
  {
    forall k ensures RunPage(c', k) {
      assert RunPage(c, k);
      var n: nat :| RunHolds(c, k, n);
      assert RunHolds(c', k, n);
    }
  }

  // ---------------------------------------------------------------- checkpoints

  lemma WriteMasterInv(c: Core, lsn: int)
    requires Inv(c)
    ensures Quiet(c, WriteMaster(c, lsn)) && FullLog(WriteMaster(c, lsn)) == FullLog(c)
  {
    hide LogPart, FilePart, RunPage, CrashInv;
    var c1 := c.(master := NO_LSN);
    LiveAfter(c, c1);
    MarkInv(c1);
    var c2 := Mark(c1).(master := lsn);
    LiveAfter(Mark(c1), c2);
    MarkInv(c2);
  }

  /** Checkpoint records leave every table entry correct. */
  lemma TxOkSystemRec(tx: map<int, TxEntry>, log: seq<Rec>, r: Rec)
    requires TxOk(tx, log) && r.xid == SYS_XID && (r.body.BeginCkpt? || r.body.EndCkpt?)
    ensures TxOk(tx, log + [r])
  {
    Snoc(log, r);
    forall x | x in tx ensures TxEntryOk(tx[x], log + [r], x) {
      assert TxEntryOk(tx[x], log, x);
    }
  }

  lemma SystemRecInv(c: Core, body: Body)
    requires Inv(c) && TxInv(c) && (body == BeginCkpt || body == EndCkpt(c.tx, c.dpt))
    ensures Quiet(c, Emit(c, SYS_XID, body)) && TxInv(Emit(c, SYS_XID, body))
    ensures Emit(c, SYS_XID, body).tx == c.tx && Emit(c, SYS_XID, body).dpt == c.dpt
  {
    QuietEmit(c, SYS_XID, body);
    TxOkSystemRec(c.tx, FullLog(c), MakeRec(c, c.nextLsn, SYS_XID, body));
  }

  lemma CheckpointInv(c: Core)
    requires Inv(c) && TxInv(c)
    ensures Quiet(c, Checkpoint(c)) && TxInv(Checkpoint(c))
  {
    hide Emit, FlushLog, FilePart, HistPart, LogPart, RunPage, SameHistories, Grows;
    SystemRecInv(c, BeginCkpt);
    var c1 := Emit(c, SYS_XID, BeginCkpt);
    SystemRecInv(c1, EndCkpt(c1.tx, c1.dpt));
    var c2 := Emit(c1, SYS_XID, EndCkpt(c1.tx, c1.dpt));
    QuietFlush(c2);
    WriteMasterInv(FlushLog(c2), c.nextLsn);
    QuietThen(c, c1, c2);
    QuietThen(c, c2, FlushLog(c2));
    QuietThen(c, FlushLog(c2), Checkpoint(c));
  }

  lemma MaybeCheckpointInv(c: Core)
    requires Inv(c) && TxInv(c)
    ensures Quiet(c, MaybeCheckpoint(c)) && TxInv(MaybeCheckpoint(c))
  {
    hide Checkpoint, FilePart, HistPart, LogPart, RunPage, SameHistories, Grows;
    var c1 := c.(ops := c.ops + 1);
    SameCore(c, c1);
    if c1.ops >= c1.cfg.checkpointInterval {
      CheckpointInv(c1);
      QuietThen(c, c1, Checkpoint(c1));
      SameCore(Checkpoint(c1), MaybeCheckpoint(c));
      QuietThen(c, Checkpoint(c1), MaybeCheckpoint(c));
    }
  }

  // ---------------------------------------------------------------- begin and commit

  lemma {:induction false} FreshXid(log: seq<Rec>, x: int)
    requires forall i :: 0 <= i < |log| ==> log[i].xid < x
    ensures LastLsn(log, x) == NO_LSN && x !in CommittedIn(log) && x !in EndedIn(log)
  {
    if log != [] {
      FreshXid(Front(log), x);
    }
  }

  lemma NextXidFresh(c: Core)
    requires LogPart(c)
    ensures var x, log := c.nextXid, FullLog(c); LastLsn(log, x) == NO_LSN && x !in CommittedIn(log) && x !in EndedIn(log)
  {
    FreshXid(FullLog(c), c.nextXid);
  }

  lemma TxOkBegun(tx: map<int, TxEntry>, log: seq<Rec>, x: nat)
    requires TxOk(tx, log) && LastLsn(log, x) == NO_LSN && x !in CommittedIn(log) && x !in EndedIn(log)
    ensures TxOk(tx[x as int := TxEntry(Active, NO_LSN)], log)
  {
  }

  lemma NewTxInv(c: Core)
    requires Inv(c) && TxInv(c)
    ensures Quiet(c, NewTx(c)) && TxInv(NewTx(c))
  {
    hide FilePart, HistPart, LogPart, RunPage, TxOk;
    SameCore(c, NewTx(c));
    NextXidFresh(c);
    TxOkBegun(c.tx, FullLog(c), c.nextXid);
  }

  lemma BeginInv(c: Core)
    requires Inv(c) && TxInv(c)
    ensures Quiet(c, BeginTx(c)) && TxInv(BeginTx(c))
  {
    hide NewTx, MaybeCheckpoint, Inv, Grows, SameHistories, TxInv;
    NewTxInv(c);
    MaybeCheckpointInv(NewTx(c));
    QuietThen(c, NewTx(c), BeginTx(c));
  }

  /** After its commit and end records a transaction leaves the table. */
  lemma TxOkRemoved(tx: map<int, TxEntry>, log: seq<Rec>, r: Rec, e: Rec)
    requires TxOk(tx, log) && r.body.Commit? && e.body.End? && r.xid == e.xid
    ensures TxOk(tx - {r.xid}, log + [r] + [e])
    ensures r.xid in CommittedIn(log + [r] + [e])
  {
    Snoc(log, r);
    Snoc(log + [r], e);
    forall x | x in tx - {r.xid} ensures TxEntryOk(tx[x], log + [r] + [e], x) {
      assert TxEntryOk(tx[x], log, x);
    }
  }

  /** The commit record, forced to disk. */
  lemma CommitRecordInv(c: Core, xid: int)
    requires Inv(c) && 0 <= xid < c.nextXid && xid in c.tx && TxEntryOk(c.tx[xid], FullLog(c), xid)
    ensures var c1 := SetCommitted(FlushLog(Emit(c, xid, Commit)), xid); var r := MakeRec(c, c.nextLsn, xid, Commit);
            && Quiet(c, c1) && FullLog(c1) == FullLog(c) + [r] && xid in CommittedIn(FullLog(c1))
            && c1.nextXid == c.nextXid && c1.tx == c.tx[xid := TxEntry(Committed, r.lsn)]
            && LastLsn(FullLog(c1), xid) == r.lsn
  {
    hide FilePart, HistPart, RunPage, SameHistories, Grows, Upd, Updaters;
    hide Emit, FlushLog;
    var r := MakeRec(c, c.nextLsn, xid, Commit);
    QuietEmit(c, xid, Commit);
    var c1 := Emit(c, xid, Commit);
    QuietFlush(c1);
    var c2 := FlushLog(c1);
    SameCore(c2, SetCommitted(c2, xid));
    QuietThen(c, c1, c2);
    QuietThen(c, c2, SetCommitted(c2, xid));
    Snoc(FullLog(c), r);
  }

  /** WAL #2 and the invariant over `commit`. */
  lemma CommitInv(c: Core, xid: int)
    requires Inv(c) && TxInv(c) && 0 <= xid < c.nextXid && xid in c.tx
    ensures var c' := CommitTx(c, xid);
            && Quiet(c, c') && TxInv(c')
            && xid in CommittedIn(c'.wal) && FullLog(c') == c'.wal
  {
    hide Emit, FlushLog, SetCommitted, FilePart, HistPart, LogPart, RunPage, SameHistories, Grows;
    CommitRecordInv(c, xid);
    var c1 := SetCommitted(FlushLog(Emit(c, xid, Commit)), xid);
    EndRecordInv(c1, xid);
    var c2 := FlushLog(Emit(c1, xid, End));
    QuietThen(c, c1, c2);
    SameCore(c2, CommitTx(c, xid));
    QuietThen(c, c2, CommitTx(c, xid));
    TxOkRemoved(c.tx, FullLog(c), MakeRec(c, c.nextLsn, xid, Commit), MakeRec(c1, c1.nextLsn, xid, End));
    assert c2.tx - {xid} == c.tx - {xid};
  }

  lemma EndRecordInv(c: Core, xid: int)
    requires Inv(c) && 0 <= xid < c.nextXid && xid in c.tx && xid in CommittedIn(FullLog(c))
    requires c.tx[xid].lastLsn == LastLsn(FullLog(c), xid)
    ensures var c' := FlushLog(Emit(c, xid, End));
            && Quiet(c, c') && FullLog(c') == FullLog(c) + [MakeRec(c, c.nextLsn, xid, End)] && c'.wal == FullLog(c')
            && c'.tx == c.tx[xid := c.tx[xid].(lastLsn := c.nextLsn)]
  {
    hide FilePart, HistPart, RunPage, SameHistories, Grows;
    hide Emit, FlushLog;
    QuietEmit(c, xid, End);
    QuietFlush(Emit(c, xid, End));
    QuietThen(c, Emit(c, xid, End), FlushLog(Emit(c, xid, End)));
  }

  // ---------------------------------------------------------------- logged page updates

  /** Appending an update record, with the page entered in the dirty page table. */
  lemma UpdateBufferedInv(c: Core, c': Core, r: Rec)
    requires Inv(c) && RecOk(FullLog(c), r, c.cfg.pageSize) && r.body.Update?
    requires r.lsn == c.nextLsn && r.xid < c.nextXid
    requires c' == c.(logBuf := c.logBuf + [r], nextLsn := c.nextLsn + 1, tx := c'.tx,
                      dpt := if r.body.key in c.dpt then c.dpt else c.dpt[r.body.key := r.lsn])
    ensures Inv(c') && FullLog(c') == FullLog(c) + [r]
  {
    UpdateLogPart(c, c', r);
    assert DptBelow(c.dpt, r.lsn) && c.cfg.pageSize >= HEADER_SIZE && LogInv(FullLog(c), c.cfg.pageSize);
    hide RecOk, CkptOk, DiskPage, FilePart, HistPart, LogPart, LogInv, DptBelow;
    var log := FullLog(c);
    assert FullLog(c') == log + [r];
    Snoc(log, r);
    assert FilePart(c') && HistPart(c') by {
      SameFiles(c, c');
    }
    forall k ensures RunPage(c', k) {
      assert RunPage(c, k);
      var n: nat :| RunHolds(c, k, n);
      HoldsSnoc(log, r, c.files, c.cfg.pageSize, k, n);
      UpdateCovered(c.dpt, c'.dpt, log, r, k, n);
      assert RunHolds(c', k, n);
    }
  }

  lemma UpdateLogPart(c: Core, c': Core, r: Rec)
    requires LogPart(c) && RecOk(FullLog(c), r, c.cfg.pageSize) && r.body.Update?
    requires r.lsn == c.nextLsn && r.xid < c.nextXid
    requires c' == c.(logBuf := c.logBuf + [r], nextLsn := c.nextLsn + 1, tx := c'.tx,
                      dpt := if r.body.key in c.dpt then c.dpt else c.dpt[r.body.key := r.lsn])
    ensures LogPart(c') && FullLog(c') == FullLog(c) + [r]
  {
    hide RecOk, LogInv;
    assert FullLog(c') == FullLog(c) + [r];
    Snoc(FullLog(c), r);
    LogInvSnoc(FullLog(c), r, c.cfg.pageSize);
    UpdateListable(FullLog(c), r, c.cfg.pageSize);
  }

  lemma UpdateListable(log: seq<Rec>, r: Rec, ps: nat)
    requires ps >= HEADER_SIZE && RecOk(log, r, ps) && r.body.Update?
    ensures Listable(r.body.key.file)
  {
    hide Logged;
  }

  lemma SameFiles(c: Core, c': Core)
    requires FilePart(c) && HistPart(c) && c' == c.(logBuf := c'.logBuf, nextLsn := c'.nextLsn, tx := c'.tx, dpt := c'.dpt)
    ensures FilePart(c') && HistPart(c')
  {
  }

  lemma UpdateCovered(dpt: map<PageKey, nat>, dpt': map<PageKey, nat>, log: seq<Rec>, r: Rec, k: PageKey, n: nat)
    requires DptCovers(dpt, log, k, n) && n <= |Upd(log, k)| && r.body.Update?
    requires DptBelow(dpt, r.lsn)
    requires dpt' == if r.body.key in dpt then dpt else dpt[r.body.key := r.lsn]
    ensures DptCovers(dpt', log + [r], k, n)
  {
    Snoc(log, r);
  }

  lemma TxOkUpdate(tx: map<int, TxEntry>, log: seq<Rec>, r: Rec)
    requires TxOk(tx, log) && r.body.Update? && r.xid in tx && tx[r.xid].status == Active
    ensures TxOk(tx[r.xid := TxEntry(Active, r.lsn)], log + [r])
  {
    Snoc(log, r);
    var tx' := tx[r.xid := TxEntry(Active, r.lsn)];
    forall x | x in tx' ensures TxEntryOk(tx'[x], log + [r], x) {
      assert x in tx && TxEntryOk(tx[x], log, x);
    }
  }

  /** The record `log_page_update` writes is one the log may take. */
  lemma UpdateRecOk(c: Core, xid: int, k: PageKey, before: Bytes, stamped: Bytes)
    requires Inv(c) && TxInv(c) && xid in c.tx && c.tx[xid].status == Active
    requires ValidFileId(k.file) && Listable(k.file) && |stamped| == c.cfg.pageSize && PageLsn(stamped) == c.nextLsn && stamped != before
    requires before == Replay(Upd(FullLog(c), k), Zeros(c.cfg.pageSize))
    ensures var (lo, hi) := DiffRange(before, stamped).value; lo < hi <= |stamped|
    ensures var (lo, hi) := DiffRange(before, stamped).value;
            var r := MakeRec(c, c.nextLsn, xid, Update(k, lo, before[lo..hi], stamped[lo..hi]));
            && RecOk(FullLog(c), r, c.cfg.pageSize)
            && Replay(Upd(FullLog(c), k) + [r], Zeros(c.cfg.pageSize)) == stamped
  {
    hide RunPage, FilePart, HistPart, LogInv, Upd, CkptOk, DiffRange, Logged, Replay, PageLsn, DptBelow, HistOk;
    PageSizeOk(c);
    var log := FullLog(c);
    DiffWindow(before, stamped);
    var (lo, hi) := DiffRange(before, stamped).value;
    var r := MakeRec(c, c.nextLsn, xid, Update(k, lo, before[lo..hi], stamped[lo..hi]));
    assert TxEntryOk(c.tx[xid], log, xid);
    assert c.nextLsn == 0 ==> log == [];
    EmptyHistory(k);
    UpdateLogged(Upd(log, k), r, lo, hi, before, stamped, c.cfg.pageSize);
  }

  lemma EmptyHistory(k: PageKey)
    ensures Upd([], k) == []
  {
  }

  /** The diff window of a stamped page is what logging writes for the change. */
  lemma UpdateLogged(us: seq<Rec>, r: Rec, lo: nat, hi: nat, before: Bytes, stamped: Bytes, ps: nat)
    requires ps >= HEADER_SIZE && |stamped| == ps && before == Replay(us, Zeros(ps)) && lo < hi <= ps
    requires r.body.Update? && r.body.off == lo && r.body.before == before[lo..hi] && r.body.after == stamped[lo..hi]
    requires PatchAt(before, lo, stamped[lo..hi]) == stamped && PageLsn(stamped) == r.lsn
    requires r.lsn == 0 ==> us == []
    requires stamped != before
    ensures Logged(us, r, ps) && Replay(us + [r], Zeros(ps)) == stamped
  {
    hide PageLsn, PatchAt;
    Snoc(us, r);
    ZeroPageLsn(ps);
  }

  lemma SkippedLsn(c: Core)
    requires Inv(c)
    ensures Quiet(c, c.(nextLsn := c.nextLsn + 1)) && FullLog(c.(nextLsn := c.nextLsn + 1)) == FullLog(c)
  {
    var c' := c.(nextLsn := c.nextLsn + 1);
    forall k ensures RunPage(c', k) {
      assert RunPage(c, k);
      var n: nat :| RunHolds(c, k, n);
      assert RunHolds(c', k, n);
    }
  }

  /** The page history grows by one update that turns the current page into `page`. */
  ghost predicate PageLogged(c: Core, c': Core, k: PageKey, page: Bytes) {
    && Inv(c') && TxInv(c') && Grows(c, c') && c'.files == c.files && c'.numPages == c.numPages
    && (forall j :: j != k ==> Upd(FullLog(c'), j) == Upd(FullLog(c), j))
    && Upd(FullLog(c), k) <= Upd(FullLog(c'), k)
    && Replay(Upd(FullLog(c'), k), Zeros(c.cfg.pageSize)) == page
  }

  /** The record and the dirty page table entry, up to the checkpoint this may trigger. */
  lemma UpdateEmitted(c: Core, xid: int, k: PageKey, before: Bytes, stamped: Bytes)
    requires Inv(c) && TxInv(c) && xid in c.tx && c.tx[xid].status == Active && 0 <= xid < c.nextXid
    requires ValidFileId(k.file) && Listable(k.file) && |stamped| == c.cfg.pageSize && PageLsn(stamped) == c.nextLsn && stamped != before
    requires before == Replay(Upd(FullLog(c), k), Zeros(c.cfg.pageSize))
    ensures var (lo, hi) := DiffRange(before, stamped).value;
            && lo <= hi <= |stamped|
            && PageLogged(c, AddDirty(EmitWithLsn(c.(nextLsn := c.nextLsn + 1), c.nextLsn, xid,
                                                  Update(k, lo, before[lo..hi], stamped[lo..hi])), k, c.nextLsn),
                          k, stamped)
  {
    hide Inv, TxInv, RecOk, FlushIfFull, DiffRange, Replay, PageLsn, Upd, PageLogged, AddDirty, Buffered;
    PageSizeOk(c);
    UpdateRecOk(c, xid, k, before, stamped);
    var (lo, hi) := DiffRange(before, stamped).value;
    var body := Update(k, lo, before[lo..hi], stamped[lo..hi]);
    var c1 := Buffered(c.(nextLsn := c.nextLsn + 1), c.nextLsn, xid, body);
    var c2 := AddDirty(c1, k, c.nextLsn);
    UpdateBuffered(c, xid, body, stamped);
    QuietIfFull(c2);
    PageLoggedThen(c, c2, FlushIfFull(c2), k, stamped);
    FlushCommutes(c1, k, c.nextLsn);
  }

  /** The record is in the buffer and its page in the dirty page table. */
  lemma UpdateBuffered(c: Core, xid: int, body: Body, stamped: Bytes)
    requires Inv(c) && TxInv(c) && xid in c.tx && c.tx[xid].status == Active && 0 <= xid < c.nextXid && body.Update?
    requires c.cfg.pageSize >= HEADER_SIZE && RecOk(FullLog(c), MakeRec(c, c.nextLsn, xid, body), c.cfg.pageSize)
    requires Replay(Upd(FullLog(c), body.key) + [MakeRec(c, c.nextLsn, xid, body)], Zeros(c.cfg.pageSize)) == stamped
    ensures var c2 := AddDirty(Buffered(c.(nextLsn := c.nextLsn + 1), c.nextLsn, xid, body), body.key, c.nextLsn);
            Inv(c2) && TxInv(c2) && PageLogged(c, c2, body.key, stamped)
  {
    hide Inv, RecOk, TxOk, Replay;
    var r := MakeRec(c, c.nextLsn, xid, body);
    var c2 := AddDirty(Buffered(c.(nextLsn := c.nextLsn + 1), c.nextLsn, xid, body), body.key, c.nextLsn);
    UpdateBufferedInv(c, c2, r);
    TxOkUpdate(c.tx, FullLog(c), r);
    Snoc(FullLog(c), r);
  }

  lemma QuietIfFull(c: Core)
    requires Inv(c) && TxInv(c)
    ensures Quiet(c, FlushIfFull(c)) && TxInv(FlushIfFull(c))
  {
    hide Inv, TxOk, FlushLog, Upd;
    FlushIfFullInv(c);
    FlushKeepsTables(c);
  }

  lemma FlushKeepsTables(c: Core)
    ensures var c' := FlushIfFull(c);
            c'.cfg == c.cfg && c'.files == c.files && c'.numPages == c.numPages && c'.tx == c.tx && c'.dpt == c.dpt
  {
  }

  /** Flushing the log does not look at the dirty page table. */
  lemma FlushCommutes(c: Core, k: PageKey, lsn: nat)
    ensures AddDirty(FlushIfFull(c), k, lsn) == FlushIfFull(AddDirty(c, k, lsn))
  {
    hide AppendStates, Last;
    if k in c.dpt {
    } else if |c.logBuf| >= c.cfg.logBufferSize {
    } else {
    }
  }

  lemma PageLoggedThen(c: Core, c1: Core, c2: Core, k: PageKey, page: Bytes)
    requires PageLogged(c, c1, k, page) && Quiet(c1, c2) && TxInv(c2)
    ensures PageLogged(c, c2, k, page)
  {
    hide Inv, TxInv;
    GrowsThen(c, c1, c2);
  }

  lemma PageSizeOk(c: Core)
    requires Inv(c)
    ensures c.cfg.pageSize >= HEADER_SIZE
  {
  }

  lemma LogPageUpdateInv(c: Core, xid: int, k: PageKey, before: Option<Bytes>, after: Bytes)
    requires Inv(c) && TxInv(c) && xid in c.tx && c.tx[xid].status == Active && 0 <= xid < c.nextXid
    requires ValidFileId(k.file) && Listable(k.file) && |after| == c.cfg.pageSize && c.nextLsn < LSN_LIMIT
    requires BeforeImage(before, |after|) == Replay(Upd(FullLog(c), k), Zeros(c.cfg.pageSize))
    ensures var (c', page) := LogPageUpdate(c, Some(xid), k, before, after);
            page == Stamp(after, c.nextLsn) && PageLogged(c, c', k, page)
  {
    hide RunPage, FilePart, HistPart, MaybeCheckpoint, EmitWithLsn, Stamp, DiffRange, AddDirty, BeforeImage, LogInv, Replay,
         Upd, FullLog, Grows, TxOk, PageLsn;
    PageSizeOk(c);
    var stamped := Stamp(after, c.nextLsn);
    StampedLsn(after, c.nextLsn);
    var full := BeforeImage(before, |after|);
    if full == stamped {
      SkippedLsn(c);
    } else {
      UpdateEmitted(c, xid, k, full, stamped);
      var (lo, hi) := DiffRange(full, stamped).value;
      var c1 := AddDirty(EmitWithLsn(c.(nextLsn := c.nextLsn + 1), c.nextLsn, xid,
                                     Update(k, lo, full[lo..hi], stamped[lo..hi])), k, c.nextLsn);
      MaybeCheckpointInv(c1);
      PageLoggedThen(c, c1, MaybeCheckpoint(c1), k, stamped);
    }
  }
}
