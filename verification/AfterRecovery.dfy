/** What a recovery leaves behind: end records only in the log, every updated page in its file, and tables in
    which the next Analysis finds no losers and the same dirty pages. */
module AfterRecovery {
  import opened Pages
  import opened Log
  import opened Engine
  import opened CoreInvariant
  import opened PoolInvariant
  import opened Analysis
  import opened Redo
  import opened Undo
  import opened Recovery
  import opened FullRecovery

  // ---------------------------------------------------------------- what undo adds to the log

  /** `log` is `wal` followed by end records with LSNs above `floor`. */
  ghost predicate OnlyEnds(wal: seq<Rec>, log: seq<Rec>, floor: int) {
    && wal <= log
    && (forall i :: |wal| <= i < |log| ==> IsEnd(log[i], floor))
    && forall i, j :: |wal| <= i < j < |log| ==> log[i].lsn < log[j].lsn
  }

  predicate IsEnd(r: Rec, floor: int) {
    r.body.End? && r.lsn > floor
  }

  /** A record of x stands at or after position `from`. */
  predicate EndsIn(log: seq<Rec>, from: nat, x: int) {
    exists i :: from <= i < |log| && log[i].xid == x
  }

  predicate Recorded(c: Core) {
    c.hist != [] && Last(c.hist) == Now(c)
  }

  /** Undo and the closing phase add only end records to the log. */
  ghost predicate Closes(c: Core, c': Core) {
    && c'.cfg == c.cfg && c'.master == c.master && c'.nextLsn >= c.nextLsn
    && Recorded(c') && OnlyEnds(FullLog(c), FullLog(c'), c.nextLsn - 1)
    && forall i :: |FullLog(c)| <= i < |FullLog(c')| ==> FullLog(c')[i].lsn < c'.nextLsn
  }

  lemma ClosesThen(c: Core, c1: Core, c2: Core)
    requires Closes(c, c1) && Closes(c1, c2)
    ensures Closes(c, c2)
    ensures forall x :: EndsIn(FullLog(c1), |FullLog(c)|, x) || EndsIn(FullLog(c2), |FullLog(c1)|, x)
                    ==> EndsIn(FullLog(c2), |FullLog(c)|, x)
  {
    hide FullLog, IsEnd;
    var a, b, d := FullLog(c), FullLog(c1), FullLog(c2);
    forall i | |a| <= i < |d| ensures IsEnd(d[i], c.nextLsn - 1) {
      if i < |b| {
        assert d[i] == b[i] && IsEnd(b[i], c.nextLsn - 1);
      } else {
        assert IsEnd(d[i], c1.nextLsn - 1);
        EndAbove(d[i], c1.nextLsn - 1, c.nextLsn - 1);
      }
    }
    forall i, j | |a| <= i < j < |d| ensures d[i].lsn < d[j].lsn {
      if i < |b| {
        assert d[i] == b[i];
        if j < |b| {
          assert d[j] == b[j];
        } else {
          EndLsn(d[j], c1.nextLsn - 1);
        }
      }
    }
    forall i | |a| <= i < |d| ensures d[i].lsn < c2.nextLsn {
      if i < |b| {
        assert d[i] == b[i];
      }
    }
    forall x | EndsIn(b, |a|, x) ensures EndsIn(d, |a|, x) {
      var i :| |a| <= i < |b| && b[i].xid == x;
      assert d[i].xid == x;
    }
  }

  lemma EndLsn(r: Rec, floor: int)
    requires IsEnd(r, floor)
    ensures r.lsn > floor
  {
  }

  lemma EndAbove(r: Rec, floor: int, lower: int)
    requires IsEnd(r, floor) && lower <= floor
    ensures IsEnd(r, lower)
  {
  }

  lemma DiskWriteRecorded(c: Core, k: PageKey, data: Bytes)
    requires Recorded(c)
    ensures Recorded(DiskWrite(c, k, data).0)
  {
  }

  lemma RestoreCloses(c: Core, r: Rec)
    requires Recorded(c) && r.body.Update?
    ensures Closes(c, RestorePage(c, r)) && FullLog(RestorePage(c, r)) == FullLog(c)
  {
    hide DiskWrite, Unpatch, Now;
    match DiskRead(c, r.body.key)
    case None =>
    case Some(data) => DiskWriteRecorded(c, r.body.key, Unpatch(data, r));
  }

  lemma FlushCloses(c: Core)
    requires Recorded(c)
    ensures Closes(c, FlushLog(c)) && FullLog(FlushLog(c)) == FullLog(c)
    ensures FlushLog(c).files == c.files && FlushLog(c).numPages == c.numPages && FlushLog(c).logBuf == [] && FlushLog(c).nextLsn == c.nextLsn
  {
    if c.logBuf != [] {
      assert c.logBuf[..|c.logBuf|] == c.logBuf;
    }
  }

  lemma CloseTxCloses(c: Core, x: int)
    requires Recorded(c)
    ensures Closes(c, CloseTx(c, x)) && EndsIn(FullLog(CloseTx(c, x)), |FullLog(c)|, x)
  {
    hide FlushLog;
    var r := MakeRec(c, c.nextLsn, x, End);
    var c1 := Buffered(c.(nextLsn := c.nextLsn + 1), c.nextLsn, x, End);
    assert FullLog(c1) == FullLog(c) + [r];
    FlushCloses(c1);
    assert FullLog(CloseTx(c, x)) == FullLog(c) + [r];
    assert FullLog(CloseTx(c, x))[|FullLog(c)|] == r;
  }

  /** The first update of a loser: after undoing it the transaction is closed. */
  predicate FirstOf(r: Rec, losers: set<int>) {
    r.body.Update? && r.xid in losers && r.prev == NO_LSN
  }

  lemma UndoRecCloses(c: Core, r: Rec, losers: set<int>)
    requires Recorded(c)
    ensures Closes(c, UndoRec(c, r, losers))
    ensures FirstOf(r, losers) ==> EndsIn(FullLog(UndoRec(c, r, losers)), |FullLog(c)|, r.xid)
  {
    hide RestorePage, CloseTx, EndsIn, FullLog, Now;
    if r.body.Update? && r.xid in losers {
      RestoreCloses(c, r);
      var c1 := RestorePage(c, r);
      if r.prev == NO_LSN {
        CloseTxCloses(c1, r.xid);
        ClosesThen(c, c1, CloseTx(c1, r.xid));
      }
    }
  }

  lemma {:induction false} UndoAllCloses(c: Core, recs: seq<Rec>, losers: set<int>)
    requires Recorded(c)
    ensures var c' := UndoAll(c, recs, losers);
            && Closes(c, c')
            && forall i :: 0 <= i < |recs| && FirstOf(recs[i], losers) ==> EndsIn(FullLog(c'), |FullLog(c)|, recs[i].xid)
    decreases |recs|
  {
    hide UndoRec, EndsIn, FullLog, Now, FirstOf;
    if recs != [] {
      UndoRecCloses(c, Last(recs), losers);
      var c1 := UndoRec(c, Last(recs), losers);
      UndoAllCloses(c1, Front(recs), losers);
      var c' := UndoAll(c, recs, losers);
      ClosesThen(c, c1, c');
      forall i | 0 <= i < |recs| && FirstOf(recs[i], losers) ensures EndsIn(FullLog(c'), |FullLog(c)|, recs[i].xid) {
        if i < |recs| - 1 {
          assert Front(recs)[i] == recs[i];
        }
      }
    }
  }

  lemma {:induction false} CloseAllCloses(c: Core, xs: seq<int>)
    requires Recorded(c)
    ensures Closes(c, CloseAll(c, xs))
    decreases |xs|
  {
    hide CloseTx, EndsIn, FullLog, Now;
    if xs != [] {
      CloseTxCloses(c, xs[0]);
      CloseAllCloses(CloseTx(c, xs[0]), xs[1..]);
      ClosesThen(c, CloseTx(c, xs[0]), CloseAll(c, xs));
    }
  }

  /** Every loser has a first update, which undo reaches. */
  lemma {:induction false} LoserHasFirst(log: seq<Rec>, x: int, ps: nat) returns (i: nat)
    requires ps >= HEADER_SIZE && LogInv(log, ps) && x in Losers(log)
    ensures i < |log| && log[i].xid == x && FirstOf(log[i], Losers(log))
  {
    if x in Updaters(Front(log)) {
      i := LoserHasFirst(Front(log), x, ps);
    } else {
      i := |log| - 1;
      HasRecords(Front(log), x, ps);
    }
  }

  // ---------------------------------------------------------------- the pages undo leaves in place

  lemma UndoRecPresent(c: Core, r: Rec, losers: set<int>, recs: seq<Rec>)
    requires Present(c, recs) && r in recs
    ensures Present(UndoRec(c, r, losers), recs)
  {
    hide CloseTx, Unpatch;
    if r.body.Update? && r.xid in losers {
      var k := r.body.key;
      var data := Unpatch(DiskPage(c.files, c.cfg.pageSize, k), r);
      WritePresent(c, k, data, recs);
      CloseTxPages(RawWrite(c, k, data), r.xid);
    }
  }

  /** Overwriting a page that is in its file. */
  lemma WritePresent(c: Core, k: PageKey, data: Bytes, recs: seq<Rec>)
    requires Present(c, recs) && ValidFileId(k.file) && OnDisk(c.files, k) && |data| == c.cfg.pageSize
    ensures DiskWrite(c, k, data).0 == RawWrite(c, k, data) && Present(RawWrite(c, k, data), recs)
    ensures DiskRead(c, k) == Some(DiskPage(c.files, c.cfg.pageSize, k))
    ensures |DiskPage(c.files, c.cfg.pageSize, k)| == c.cfg.pageSize
  {
    WrittenFiles(c, k, data);
    var c1 := RawWrite(c, k, data);
    forall i | 0 <= i < |recs| && recs[i].body.Update? ensures OnDisk(c1.files, recs[i].body.key) {
      assert OnDisk(c.files, recs[i].body.key);
    }
  }

  lemma {:induction false} UndoAllPresent(c: Core, recs: seq<Rec>, losers: set<int>, all: seq<Rec>)
    requires Present(c, all) && forall r :: r in recs ==> r in all
    ensures Present(UndoAll(c, recs, losers), all)
    decreases |recs|
  {
    hide UndoRec, Present;
    if recs != [] {
      UndoRecPresent(c, Last(recs), losers, all);
      UndoAllPresent(UndoRec(c, Last(recs), losers), Front(recs), losers, all);
    }
  }

  lemma KeptPresent(c: Core, c': Core, recs: seq<Rec>)
    requires Present(c, recs) && c'.files == c.files && c'.cfg == c.cfg && c'.numPages == c.numPages
    ensures Present(c', recs)
  {
  }

  lemma PresentFiles(c: Core, c': Core, recs: seq<Rec>, recs': seq<Rec>)
    requires Present(c, recs) && c'.files == c.files && c'.cfg == c.cfg && Tight(c')
    requires forall i :: 0 <= i < |recs'| && recs'[i].body.Update? ==> recs'[i] in recs
    ensures Present(c', recs')
  {
  }

  // ---------------------------------------------------------------- redo leaves the rest of the engine alone

  ghost predicate Rewrites(c: Core, c': Core) {
    c' == c.(files := c'.files, numPages := c'.numPages, hist := c'.hist) && Recorded(c')
  }

  lemma {:induction false} ZerosRecorded(c: Core, f: string, n: nat)
    requires Recorded(c)
    ensures Rewrites(c, WriteZeros(c, f, n))
    decreases n
  {
    hide DiskWrite, Now;
    if n != 0 {
      DiskWriteRecorded(c, PageKey(f, NumPages(c, f)), Zeros(c.cfg.pageSize));
      ZerosRecorded(DiskWrite(c, PageKey(f, NumPages(c, f)), Zeros(c.cfg.pageSize)).0, f, n - 1);
    }
  }

  lemma CreateRecorded(c: Core, f: string)
    requires Recorded(c)
    ensures Rewrites(c, CreateFile(c, f))
  {
  }

  lemma ApplyRecorded(c: Core, r: Rec)
    requires Recorded(c) && r.body.Update?
    ensures Rewrites(c, ApplyRec(c, r))
  {
    hide DiskWrite, Now, Patch;
    match DiskRead(c, r.body.key)
    case None =>
    case Some(data) => DiskWriteRecorded(c, r.body.key, Patch(data, r));
  }

  lemma RedoRecRecorded(c: Core, r: Rec)
    requires Recorded(c)
    ensures Rewrites(c, RedoRec(c, r))
  {
    hide CreateFile, WriteZeros, ApplyRec, Now, DiskPage, PageLsn;
    if r.body.Update? {
      var k := r.body.key;
      CreateRecorded(c, k.file);
      var c1 := if FileExists(c, k.file) then c else CreateFile(c, k.file);
      ZerosRecorded(c1, k.file, MissingPages(c1, k));
      ApplyRecorded(c, r);
      ApplyRecorded(EnsurePage(c, k), r);
    }
  }

  lemma {:induction false} RedoRecorded(c: Core, recs: seq<Rec>)
    requires Recorded(c)
    ensures Rewrites(c, RedoAll(c, recs))
  {
    hide RedoRec, Now;
    if recs != [] {
      RedoRecorded(c, Front(recs));
      RedoRecRecorded(RedoAll(c, Front(recs)), Last(recs));
    }
  }

  // ---------------------------------------------------------------- the first recovery

  /** The state the first recovery leaves: the log with one end record or more for every loser, the same
      master record, and every updated page in its file. */
  ghost predicate LeftBehind(d: Durable, c: Core) {
    && d.wal != [] && c.logBuf == [] && c.master == d.master && Recorded(c)
    && OnlyEnds(d.wal, c.wal, Last(d.wal).lsn)
    && (forall x :: x in Losers(d.wal) ==> EndsIn(c.wal, |d.wal|, x))
    && Present(c, d.wal)
  }

  lemma FirstLeaves(cfg: Config, hist: seq<Durable>, xs: seq<int>)
    requires AllCrashOk(cfg, hist) && Last(hist).wal != []
    ensures LeftBehind(Last(hist), Recover(cfg, hist, xs)) && Recover(cfg, hist, xs).cfg == cfg
  {
    hide Analyse, RedoAll, CrashInv, UndoAll, CloseAll, FlushLog, Present, EndsIn, OnlyEnds, LogInv, Recorded;
    var wal, ps := Last(hist).wal, cfg.pageSize;
    assert CrashInv(Last(hist), ps);
    WalInv(Last(hist), ps);
    var c := Analysed(cfg, hist);
    AnalysisTx(wal, c.master, ps);
    UndoLosersAre(c.tx, wal, ps);
    assert Recorded(c) by {
      RestartRecorded(cfg, hist);
    }
    RedoRecorded(c, wal);
    RedonePresent(cfg, hist);
    var c1 := RedoAll(c, wal);
    UndoAllCloses(c1, wal, Losers(wal));
    UndoAllPresent(c1, wal, Losers(wal), wal);
    var c2 := UndoAll(c1, wal, Losers(wal));
    CloseAllCloses(c2, xs);
    CloseAllPages(c2, xs);
    var c3 := CloseAll(c2, xs);
    FlushCloses(c3);
    ClosesThen(c1, c2, c3);
    ClosesThen(c1, c3, FlushLog(c3));
    assert FullLog(c1) == wal && FullLog(FlushLog(c3)) == FlushLog(c3).wal;
    forall x | x in Losers(wal) ensures EndsIn(FlushLog(c3).wal, |wal|, x) {
      var i := LoserHasFirst(wal, x, ps);
    }
    KeptPresent(c2, FlushLog(c3), wal);
  }

  lemma RestartRecorded(cfg: Config, hist: seq<Durable>)
    requires hist != []
    ensures Recorded(Analysed(cfg, hist))
  {
    hide Analyse;
  }

  // ---------------------------------------------------------------- the second Analysis

  /** `log` is `wal` followed by records that are not those of a checkpoint. */
  predicate NoneTaken(wal: seq<Rec>, log: seq<Rec>) {
    && wal <= log
    && forall j :: |wal| <= j < |log| ==> !log[j].body.BeginCkpt? && !log[j].body.EndCkpt?
  }

  lemma {:induction false} NoBeginAfter(log: seq<Rec>, lsn: int, i: nat)
    requires i <= |log| && forall j :: i <= j < |log| ==> !log[j].body.BeginCkpt? && !log[j].body.EndCkpt?
    ensures FindBegin(log, lsn, i) == |log| && FindEnd(log, i) == |log|
    decreases |log| - i
  {
    if i < |log| {
      NoBeginAfter(log, lsn, i + 1);
    }
  }

  lemma {:induction false} SameBegin(wal: seq<Rec>, log: seq<Rec>, lsn: int, i: nat)
    requires NoneTaken(wal, log) && i <= |wal|
    ensures FindBegin(log, lsn, i) == if FindBegin(wal, lsn, i) < |wal| then FindBegin(wal, lsn, i) else |log|
    ensures FindEnd(log, i) == if FindEnd(wal, i) < |wal| then FindEnd(wal, i) else |log|
    decreases |wal| - i
  {
    if i == |wal| {
      NoBeginAfter(log, lsn, i);
    } else {
      assert log[i] == wal[i];
      SameBegin(wal, log, lsn, i + 1);
    }
  }

  lemma SameCheckpoint(wal: seq<Rec>, log: seq<Rec>, master: int)
    requires NoneTaken(wal, log)
    ensures CheckpointEnd(log, master) == CheckpointEnd(wal, master)
    ensures var e := CheckpointEnd(wal, master); Snapshot(log, e) == Snapshot(wal, e) && ScanFrom(log, e) == ScanFrom(wal, e)
  {
    SameBegin(wal, log, master, 0);
    var b := FindBegin(wal, master, 0);
    if b < |wal| {
      SameBegin(wal, log, master, b + 1);
    }
  }

  /** End records only take transactions out of the table. */
  lemma {:induction false} EndsScanned(t: Tables, wal: seq<Rec>, log: seq<Rec>, floor: int, from: int)
    requires OnlyEnds(wal, log, floor) && from <= floor
    ensures var a, b := Scan(t, wal, from), Scan(t, log, from);
            && b.dpt == a.dpt
            && (forall x :: x in b.tx <==> x in a.tx && !EndsIn(log, |wal|, x))
            && forall x :: x in b.tx ==> b.tx[x] == a.tx[x]
    decreases |log|
  {
    if |log| == |wal| {
      assert log == wal;
    } else {
      var front := Front(log);
      assert IsEnd(log[|log| - 1], floor);
      forall i | |wal| <= i < |front| ensures IsEnd(front[i], floor) {
        assert IsEnd(log[i], floor);
      }
      EndsScanned(t, wal, front, floor, from);
      var a, b := Scan(t, wal, from), Scan(t, log, from);
      forall x ensures EndsIn(log, |wal|, x) <==> EndsIn(front, |wal|, x) || x == Last(log).xid {
        EndsInLast(log, |wal|, x);
      }
    }
  }

  /** The scan starts at a record of the log. */
  lemma ScanFromBelow(wal: seq<Rec>, master: int, ps: nat)
    requires ps >= HEADER_SIZE && LogInv(wal, ps) && wal != []
    ensures ScanFrom(wal, CheckpointEnd(wal, master)) <= Last(wal).lsn
  {
    hide LogInv;
    LsnAtLeast(wal, ps);
    var e := CheckpointEnd(wal, master);
    if e.Some? && e.value < |wal| - 1 {
      LsnsIncrease(wal, e.value, |wal| - 1, ps);
    }
  }

  lemma EndsInLast(log: seq<Rec>, from: nat, x: int)
    requires from < |log|
    ensures EndsIn(log, from, x) <==> EndsIn(Front(log), from, x) || x == Last(log).xid
  {
    if EndsIn(Front(log), from, x) {
      var i :| from <= i < |log| - 1 && Front(log)[i].xid == x;
      assert log[i].xid == x;
    }
    if EndsIn(log, from, x) {
      var i :| from <= i < |log| && log[i].xid == x;
      assert i < |log| - 1 ==> Front(log)[i].xid == x;
    }
    assert log[|log| - 1] == Last(log);
  }

  /** The second Analysis finds the same dirty page table and no losers. */
  lemma SecondTables(d: Durable, c: Core, ps: nat)
    requires ps >= HEADER_SIZE && LogInv(d.wal, ps) && LeftBehind(d, c)
    ensures Analyse(c.wal, c.master).dpt == Analyse(d.wal, d.master).dpt
    ensures UndoLosers(Analyse(c.wal, c.master).tx) == {}
  {
    hide Present, EndsIn, LogInv, IsEnd, Scan, CheckpointEnd;
    var wal, m, floor := d.wal, d.master, Last(d.wal).lsn;
    SameCheckpoint(wal, c.wal, m) by {
      EndsOnly(wal, c.wal, floor);
    }
    var e := CheckpointEnd(wal, m);
    ScanFromBelow(wal, m, ps);
    var t, from := Snapshot(wal, e), ScanFrom(wal, e);
    EndsScanned(t, wal, c.wal, floor, from);
    AnalysisTx(wal, m, ps);
    UndoLosersAre(Analyse(wal, m).tx, wal, ps);
    NoneLeft(Analyse(c.wal, m).tx, Analyse(wal, m).tx, c.wal, |wal|);
  }

  lemma NoneLeft(tx: map<int, TxEntry>, first: map<int, TxEntry>, log: seq<Rec>, from: nat)
    requires forall x :: x in tx ==> x in first && tx[x] == first[x] && !EndsIn(log, from, x)
    requires forall x :: x in UndoLosers(first) ==> EndsIn(log, from, x)
    ensures UndoLosers(tx) == {}
  {
    forall x ensures x !in UndoLosers(tx) {
      assert x in UndoLosers(tx) ==> x in UndoLosers(first);
    }
  }

  lemma EndsOnly(wal: seq<Rec>, log: seq<Rec>, floor: int)
    requires OnlyEnds(wal, log, floor)
    ensures NoneTaken(wal, log)
  {
    forall j | |wal| <= j < |log| ensures log[j].body.End? {
      assert IsEnd(log[j], floor);
    }
  }

  lemma LsnAtLeast(wal: seq<Rec>, ps: nat)
    requires wal != []
    ensures Last(wal).lsn > NO_LSN
  {
  }

  lemma {:induction false} EndsUpd(wal: seq<Rec>, log: seq<Rec>, floor: int, k: PageKey)
    requires OnlyEnds(wal, log, floor)
    ensures Upd(log, k) == Upd(wal, k)
    ensures forall i :: 0 <= i < |log| && log[i].body.Update? ==> log[i] in wal
    decreases |log|
  {
    if |log| == |wal| {
      assert log == wal;
    } else {
      assert IsEnd(log[|log| - 1], floor);
      forall i | |wal| <= i < |log| - 1 ensures IsEnd(Front(log)[i], floor) {
        assert IsEnd(log[i], floor);
      }
      EndsUpd(wal, Front(log), floor, k);
      forall i | 0 <= i < |log| && log[i].body.Update? ensures log[i] in wal {
        assert i < |log| - 1 && Front(log)[i] == log[i];
      }
    }
  }
}
