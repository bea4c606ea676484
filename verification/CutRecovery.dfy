/** Recoveries cut off anywhere, in Redo, in Undo or while they close transactions, any number of them one after
    the other: what each leaves on every page, and what the one that completes makes of it. */
module CutRecovery {
  import opened Pages
  import opened Log
  import opened Engine
  import opened CoreInvariant
  import opened PoolInvariant
  import opened Analysis
  import opened Redo
  import opened Undo
  import opened Recovery
  import opened FullRecovery
  import opened AfterRecovery
  import opened SecondRestart
  import opened PageLsns
  import opened Runs
  import opened Pool

  // ---------------------------------------------------------------- states between two recoveries

  /** The log is `wal` and end records after it, and every page that `wal` updates is in its file. */
  ghost predicate Resumable(wal: seq<Rec>, d: Durable, ps: nat) {
    && ps >= HEADER_SIZE && LogInv(wal, ps) && wal != []
    && OnlyEnds(wal, d.wal, Last(wal).lsn) && FilesOk(d.files, ps)
    && forall i :: 0 <= i < |wal| && wal[i].body.Update? ==>
         ValidFileId(wal[i].body.key.file) && OnDisk(d.files, wal[i].body.key)
  }

  /** The losers that have no end record yet. */
  function Open(wal: seq<Rec>, log: seq<Rec>): set<int> {
    set x | x in Losers(wal) && !EndsIn(log, |wal|, x)
  }

  /** The durable states on the way to c' have its pages, and a log between those of the two. */
  ghost predicate Passes(c: Core, c': Core) {
    && c.hist <= c'.hist && c'.master == c.master && c'.cfg == c.cfg && FullLog(c) <= FullLog(c') && c.wal <= c'.wal
    && forall j :: |c.hist| <= j < |c'.hist| ==>
         c'.hist[j].files == c'.files && c'.hist[j].master == c.master && c.wal <= c'.hist[j].wal <= FullLog(c')
  }

  lemma PassesThen(c: Core, c1: Core, c2: Core)
    requires Passes(c, c1) && Passes(c1, c2) && c2.files == c1.files
    ensures Passes(c, c2)
  {
    hide FullLog;
    forall j | |c.hist| <= j < |c2.hist|
      ensures c2.hist[j].files == c2.files && c2.hist[j].master == c.master && c.wal <= c2.hist[j].wal <= FullLog(c2)
    {
      if j < |c1.hist| {
        assert c2.hist[j] == c1.hist[j];
      }
    }
  }

  lemma FlushPasses(c: Core)
    ensures Passes(c, FlushLog(c)) && FlushLog(c).files == c.files && FlushLog(c).numPages == c.numPages
  {
    var c' := FlushLog(c);
    forall j | |c.hist| <= j < |c'.hist|
      ensures c'.hist[j].files == c'.files && c'.hist[j].master == c.master && c.wal <= c'.hist[j].wal <= FullLog(c')
    {
      var i := j - |c.hist|;
      assert c'.hist[j] == Durable(c.wal + c.logBuf[..i + 1], c.files, c.master);
      assert c.wal + c.logBuf == c.wal + c.logBuf[..i + 1] + c.logBuf[i + 1..];
    }
  }

  lemma CloseTxPasses(c: Core, x: int)
    ensures Passes(c, CloseTx(c, x)) && CloseTx(c, x).files == c.files
  {
    hide FlushLog;
    var r := MakeRec(c, c.nextLsn, x, End);
    var c1 := Buffered(c.(nextLsn := c.nextLsn + 1), c.nextLsn, x, End);
    assert FullLog(c1) == FullLog(c) + [r];
    assert Passes(c, c1);
    FlushPasses(c1);
    PassesThen(c, c1, FlushLog(c1));
  }

  lemma {:induction false} CloseAllPasses(c: Core, xs: seq<int>)
    ensures Passes(c, CloseAll(c, xs)) && CloseAll(c, xs).files == c.files
    decreases |xs|
  {
    hide CloseTx;
    if xs != [] {
      CloseTxPasses(c, xs[0]);
      CloseAllPasses(CloseTx(c, xs[0]), xs[1..]);
      PassesThen(c, CloseTx(c, xs[0]), CloseAll(c, xs));
    }
  }

  lemma UndoRecPasses(c: Core, r: Rec, losers: set<int>, all: seq<Rec>)
    requires Present(c, all) && r in all
    ensures Passes(c, UndoRec(c, r, losers))
  {
    hide CloseTx, Unpatch, FullLog;
    if r.body.Update? && r.xid in losers {
      var k := r.body.key;
      var data := Unpatch(DiskPage(c.files, c.cfg.pageSize, k), r);
      WritePresent(c, k, data, all);
      var c1 := RawWrite(c, k, data);
      WritePasses(c, k, data);
      CloseTxPasses(c1, r.xid);
      if r.prev == NO_LSN {
        PassesThen(c, c1, CloseTx(c1, r.xid));
      }
    }
  }

  lemma WritePasses(c: Core, k: PageKey, data: Bytes)
    requires k.file in c.files
    ensures Passes(c, RawWrite(c, k, data))
  {
    hide PutPage;
  }

  /** Every durable state of undo has the pages after some tail of the log has been undone. */
  lemma {:induction false} UndoPasses(c: Core, recs: seq<Rec>, losers: set<int>, all: seq<Rec>, j: nat) returns (i: nat)
    requires Present(c, all) && forall r :: r in recs ==> r in all
    requires |c.hist| <= j < |UndoAll(c, recs, losers).hist|
    ensures i <= |recs|
    ensures var d, c' := UndoAll(c, recs, losers).hist[j], UndoAll(c, recs[i..], losers);
            d.files == c'.files && d.master == c.master && c.wal <= d.wal <= FullLog(c')
    decreases |recs|
  {
    hide UndoRec, Present, FullLog, Passes;
    var c1 := UndoRec(c, Last(recs), losers);
    UndoRecPasses(c, Last(recs), losers, all);
    UndoRecPresent(c, Last(recs), losers, all);
    UndoAllKeeps(c1, Front(recs), losers, all);
    PassesStates(c, c1, UndoAll(c, recs, losers));
    if j < |c1.hist| {
      i := |recs| - 1;
      assert recs[i..] == [Last(recs)] && Front(recs[i..]) == [];
    } else {
      i := UndoPasses(c1, Front(recs), losers, all, j);
      assert Front(recs[i..]) == Front(recs)[i..] && Last(recs[i..]) == Last(recs);
    }
  }

  /** What earlier states are stays so. */
  lemma PassesStates(c: Core, c1: Core, c2: Core)
    requires Passes(c, c1) && c1.hist <= c2.hist
    ensures c.hist <= c2.hist && c.wal <= c1.wal && c1.master == c.master
    ensures forall j :: |c.hist| <= j < |c1.hist| ==>
              c2.hist[j].files == c1.files && c2.hist[j].master == c.master && c.wal <= c2.hist[j].wal <= FullLog(c1)
  {
    hide FullLog;
    forall j | |c.hist| <= j < |c1.hist|
      ensures c2.hist[j].files == c1.files && c2.hist[j].master == c.master && c.wal <= c2.hist[j].wal <= FullLog(c1)
    {
      assert c2.hist[j] == c1.hist[j];
    }
  }

  lemma {:induction false} UndoAllKeeps(c: Core, recs: seq<Rec>, losers: set<int>, all: seq<Rec>)
    requires Present(c, all) && forall r :: r in recs ==> r in all
    ensures var c' := UndoAll(c, recs, losers);
            c.hist <= c'.hist && c'.master == c.master && c'.cfg == c.cfg && c.wal <= c'.wal && FullLog(c) <= FullLog(c')
    decreases |recs|
  {
    hide UndoRec, Present, FullLog;
    if recs != [] {
      UndoRecPasses(c, Last(recs), losers, all);
      UndoRecPresent(c, Last(recs), losers, all);
      UndoAllKeeps(UndoRec(c, Last(recs), losers), Front(recs), losers, all);
    }
  }

  // ---------------------------------------------------------------- redo

  lemma RedoRecPasses(c: Core, r: Rec, all: seq<Rec>)
    requires Present(c, all) && r in all
    ensures var c' := RedoRec(c, r); Passes(c, c') && c'.wal == c.wal && c'.logBuf == c.logBuf
  {
    hide PageLsn, Patch;
    if r.body.Update? {
      var k := r.body.key;
      assert ValidFileId(k.file) && OnDisk(c.files, k);
      var data := Patch(DiskPage(c.files, c.cfg.pageSize, k), r);
      WritePresent(c, k, data, all);
      WritePasses(c, k, data);
      hide DiskPage, Present, DiskWrite, RawWrite, Passes;
      SelfPasses(c);
    } else {
      SelfPasses(c);
    }
  }

  lemma SelfPasses(c: Core)
    ensures Passes(c, c)
  {
  }

  /** Every durable state of redo has the pages after some part of the log has been redone. */
  lemma {:induction false} RedoPasses(c: Core, recs: seq<Rec>, all: seq<Rec>, j: nat) returns (m: nat)
    requires Present(c, all) && c.cfg.pageSize >= HEADER_SIZE && Recorded(c) && c.logBuf == []
    requires forall r :: r in recs ==> r in all
    requires |c.hist| - 1 <= j < |RedoAll(c, recs).hist|
    ensures m <= |recs| && RedoAll(c, recs).hist[j] == Durable(c.wal, RedoAll(c, recs[..m]).files, c.master)
  {
    hide RedoRec, Present, FullLog, Passes;
    if recs == [] {
      m := 0;
    } else {
      var c1 := RedoAll(c, Front(recs));
      RedoPresent(c, Front(recs), all);
      RedoRecPasses(c1, Last(recs), all);
      RedoRecorded(c, Front(recs));
      PassesStates(c1, RedoAll(c, recs), RedoAll(c, recs));
      if j < |c1.hist| {
        m := RedoPasses(c, Front(recs), all, j);
        assert Front(recs)[..m] == recs[..m];
      } else {
        m := |recs|;
        assert recs[..m] == recs;
        RedoRecorded(c, recs);
        SameLogState(c1, RedoAll(c, recs), j);
      }
    }
  }

  lemma SameLogState(c: Core, c': Core, j: nat)
    requires Passes(c, c') && c'.wal == c.wal && c'.logBuf == c.logBuf && |c.hist| <= j < |c'.hist| && c.logBuf == []
    ensures c'.hist[j] == Durable(c.wal, c'.files, c.master)
  {
  }

  lemma {:induction false} RedoPresent(c: Core, recs: seq<Rec>, all: seq<Rec>)
    requires Present(c, all) && c.cfg.pageSize >= HEADER_SIZE && forall r :: r in recs ==> r in all
    ensures Present(RedoAll(c, recs), all) && RedoAll(c, recs).cfg == c.cfg && RedoAll(c, recs).dpt == c.dpt
  {
    hide RedoRec, Present;
    if recs != [] {
      RedoPresent(c, Front(recs), all);
      RedoRecAgain(RedoAll(c, Front(recs)), Last(recs), all, PageKey("", 0));
    }
  }

  // ---------------------------------------------------------------- logs and tables in between

  lemma EndsThen(wal: seq<Rec>, mid: seq<Rec>, log: seq<Rec>, floor: int, next: int)
    requires OnlyEnds(wal, mid, floor) && OnlyEnds(mid, log, next) && floor <= next
    requires forall i :: |wal| <= i < |mid| ==> mid[i].lsn <= next
    ensures OnlyEnds(wal, log, floor)
  {
    forall i | |wal| <= i < |log| ensures IsEnd(log[i], floor) {
      if i < |mid| {
        assert IsEnd(mid[i], floor);
      } else {
        assert IsEnd(log[i], next);
      }
    }
    forall i, j | |wal| <= i < j < |log| ensures log[i].lsn < log[j].lsn {
      if i < |mid| && |mid| <= j {
        assert IsEnd(log[j], next) && log[i] == mid[i];
      }
    }
  }

  lemma EndsPrefix(wal: seq<Rec>, mid: seq<Rec>, log: seq<Rec>, floor: int)
    requires OnlyEnds(wal, log, floor) && wal <= mid <= log
    ensures OnlyEnds(wal, mid, floor)
  {
    forall i | |wal| <= i < |mid| ensures IsEnd(mid[i], floor) {
      assert IsEnd(log[i], floor);
    }
  }

  /** The updates of a page before and after a position. */
  lemma UpdSplit(wal: seq<Rec>, log: seq<Rec>, floor: int, i: nat, k: PageKey)
    requires OnlyEnds(wal, log, floor) && i <= |log|
    ensures var m := Min(i, |wal|); Upd(log[..i], k) == Upd(wal[..m], k) && Upd(log[i..], k) == Upd(wal[m..], k)
  {
    hide Upd;
    var ends := log[|wal|..];
    forall j | 0 <= j < |ends| ensures !ends[j].body.Update? {
      assert IsEnd(log[|wal| + j], floor);
    }
    var m := Min(i, |wal|);
    Sliced(wal, ends, i);
    assert log == wal + ends;
    NoUpd(ends[..i - m], k);
    NoUpd(ends[i - m..], k);
    UpdConcat(wal[..m], ends[..i - m], k);
    UpdConcat(wal[m..], ends[i - m..], k);
  }

  lemma Sliced(a: seq<Rec>, b: seq<Rec>, i: nat)
    requires i <= |a + b|
    ensures var m := Min(i, |a|); (a + b)[..i] == a[..m] + b[..i - m] && (a + b)[i..] == a[m..] + b[i - m..]
  {
    if i <= |a| {
      SlicedFront(a, b, i);
    } else {
      assert (a + b)[..i] == a + b[..i - |a|] && (a + b)[i..] == b[i - |a|..];
    }
  }

  lemma SlicedFront(a: seq<Rec>, b: seq<Rec>, i: nat)
    requires i <= |a|
    ensures (a + b)[..i] == a[..i] && (a + b)[i..] == a[i..] + b
  {
  }

  lemma {:induction false} NoUpd(recs: seq<Rec>, k: PageKey)
    requires forall j :: 0 <= j < |recs| ==> !recs[j].body.Update?
    ensures Upd(recs, k) == []
  {
    if recs != [] {
      assert !recs[|recs| - 1].body.Update?;
      NoUpd(Front(recs), k);
    }
  }

  /** Analysis finds the same dirty pages each time, and the losers that have no end record yet. */
  lemma OpenTables(wal: seq<Rec>, d: Durable, ps: nat)
    requires Resumable(wal, d, ps)
    ensures Analyse(d.wal, d.master).dpt == Analyse(wal, d.master).dpt
    ensures UndoLosers(Analyse(d.wal, d.master).tx) == Open(wal, d.wal)
  {
    hide EndsIn, LogInv, IsEnd, Scan, CheckpointEnd, OnDisk, FilesOk;
    var m, floor := d.master, Last(wal).lsn;
    SameCheckpoint(wal, d.wal, m) by {
      EndsOnly(wal, d.wal, floor);
    }
    ScanFromBelow(wal, m, ps);
    var e := CheckpointEnd(wal, m);
    EndsScanned(Snapshot(wal, e), wal, d.wal, floor, ScanFrom(wal, e));
    AnalysisTx(wal, m, ps);
    UndoLosersAre(Analyse(wal, m).tx, wal, ps);
    var a, b := Analyse(wal, m).tx, Analyse(d.wal, m).tx;
    forall x ensures x in UndoLosers(b) <==> x in Open(wal, d.wal) {
      assert x in UndoLosers(a) <==> x in Losers(wal);
    }
  }

  // ---------------------------------------------------------------- one recovery, cut off

  /** How far a recovery came: the first m records redone, or all of them and those from i on undone. */
  datatype Stop = InRedo(m: nat) | InUndo(i: nat)

  predicate StopIn(stop: Stop, wal: seq<Rec>) {
    match stop case InRedo(m) => m <= |wal| case InUndo(i) => i <= |wal|
  }

  /** Redo over a page that Analysis may list. */
  function RedoneOver(us: seq<Rec>, dpt: map<PageKey, nat>, k: PageKey, p: Bytes): (q: Bytes)
    requires |p| >= HEADER_SIZE
    ensures |q| == |p|
  {
    if k in dpt then Again(us, dpt[k], p) else p
  }

  /** The page such a recovery leaves. */
  function Stopped(wal: seq<Rec>, open: set<int>, dpt: map<PageKey, nat>, k: PageKey, p: Bytes, stop: Stop): (q: Bytes)
    requires |p| >= HEADER_SIZE && StopIn(stop, wal)
    ensures |q| == |p|
  {
    match stop
    case InRedo(m) => RedoneOver(Upd(wal[..m], k), dpt, k, p)
    case InUndo(i) => UndoPage(Upd(wal[i..], k), open, RedoneOver(Upd(wal, k), dpt, k, p))
  }

  lemma ResumablePresent(cfg: Config, hist: seq<Durable>, wal: seq<Rec>)
    requires hist != [] && Resumable(wal, Last(hist), cfg.pageSize)
    ensures var c, d := Analysed(cfg, hist), Last(hist);
            && Present(c, d.wal) && Recorded(c) && c.logBuf == [] && c.hist == hist && c.cfg == cfg && c.files == d.files
            && c.wal == d.wal && c.master == d.master && d.wal != [] && c.dpt == Analyse(wal, d.master).dpt
            && UndoLosers(c.tx) == Open(wal, d.wal) && c.nextLsn == Last(d.wal).lsn + 1
  {
    hide Analyse, LogInv, OnDisk, ValidFileId, Open, UndoLosers;
    var d := Last(hist);
    OpenTables(wal, d, cfg.pageSize);
    EndsUpd(wal, d.wal, Last(wal).lsn, PageKey("", 0));
    LastAtLeast(wal, d.wal, cfg.pageSize);
    RestartTight(cfg, hist);
    forall i | 0 <= i < |d.wal| && d.wal[i].body.Update?
      ensures ValidFileId(d.wal[i].body.key.file) && OnDisk(d.files, d.wal[i].body.key)
    {
      assert d.wal[i] in wal;
    }
  }

  lemma LastAtLeast(wal: seq<Rec>, log: seq<Rec>, ps: nat)
    requires ps >= HEADER_SIZE && LogInv(wal, ps) && wal != [] && OnlyEnds(wal, log, Last(wal).lsn)
    ensures log != [] && NO_LSN < Last(wal).lsn <= Last(log).lsn
    ensures forall i :: |wal| <= i < |log| ==> log[i].lsn <= Last(log).lsn
  {
    hide LogInv;
    LsnAtLeast(wal, ps);
    if |wal| < |log| {
      assert IsEnd(log[|log| - 1], Last(wal).lsn);
    }
  }

  /** A later state with the same updated pages in place. */
  lemma StaysResumable(wal: seq<Rec>, log: seq<Rec>, d: Durable, c: Core, ps: nat)
    requires ps >= HEADER_SIZE && LogInv(wal, ps) && wal != [] && OnlyEnds(wal, log, Last(wal).lsn)
    requires OnlyEnds(wal, d.wal, Last(wal).lsn) && d.files == c.files && Present(c, log) && c.cfg.pageSize == ps
    ensures Resumable(wal, d, ps)
  {
    hide LogInv, OnDisk, ValidFileId, FilesOk;
    forall i | 0 <= i < |wal| && wal[i].body.Update?
      ensures ValidFileId(wal[i].body.key.file) && OnDisk(d.files, wal[i].body.key)
    {
      assert log[i] == wal[i];
    }
  }

  lemma RedoStop(cfg: Config, hist: seq<Durable>, wal: seq<Rec>, j: nat) returns (stop: Stop)
    requires hist != [] && Resumable(wal, Last(hist), cfg.pageSize)
    requires |hist| - 1 <= j < |RedoAll(Analysed(cfg, hist), Last(hist).wal).hist|
    ensures stop.InRedo? && StopIn(stop, wal)
    ensures var d, d' := Last(hist), RedoAll(Analysed(cfg, hist), Last(hist).wal).hist[j];
            && Resumable(wal, d', cfg.pageSize) && d'.master == d.master && d'.wal == d.wal
            && forall k :: var p := DiskPage(d.files, cfg.pageSize, k);
                 |p| == cfg.pageSize
                 && DiskPage(d'.files, cfg.pageSize, k) == Stopped(wal, Open(wal, d.wal), Analyse(wal, d.master).dpt, k, p, stop)
  {
    hide Analyse, LogInv, OnDisk, RedoAll, Present, Again, UndoLosers, Open, DiskPage, OnlyEnds, FilesOk;
    var d, ps := Last(hist), cfg.pageSize;
    var c := Analysed(cfg, hist);
    ResumablePresent(cfg, hist, wal);
    var m := RedoPasses(c, d.wal, d.wal, j);
    stop := InRedo(Min(m, |wal|));
    RedoPresent(c, d.wal[..m], d.wal);
    StaysResumable(wal, d.wal, RedoAll(c, d.wal).hist[j], RedoAll(c, d.wal[..m]), ps);
    forall k
      ensures var p := DiskPage(d.files, ps, k);
              |p| == ps
              && DiskPage(RedoAll(c, d.wal[..m]).files, ps, k) == Stopped(wal, Open(wal, d.wal), c.dpt, k, p, stop)
    {
      PageSized(d.files, ps, k);
      RedoAllAgain(c, d.wal[..m], d.wal, k);
      UpdSplit(wal, d.wal, Last(wal).lsn, m, k);
    }
  }

  lemma PageSized(files: Files, ps: nat, k: PageKey)
    requires FilesOk(files, ps)
    ensures |DiskPage(files, ps, k)| == ps
  {
  }

  /** Redo ends with every updated page in its file, ready for undo. */
  ghost predicate RedoEnded(wal: seq<Rec>, log: seq<Rec>, c: Core) {
    && Present(c, log) && Recorded(c) && c.logBuf == [] && c.wal == log && log != []
    && c.cfg.pageSize >= HEADER_SIZE && LogInv(wal, c.cfg.pageSize) && wal != []
    && OnlyEnds(wal, log, Last(wal).lsn) && c.nextLsn == Last(log).lsn + 1
  }

  /** From there, every later durable state of the recovery: some tail of the log undone, end records added. */
  lemma UndoStop(wal: seq<Rec>, log: seq<Rec>, c: Core, losers: set<int>, xs: seq<int>, j: nat) returns (i: nat)
    requires RedoEnded(wal, log, c)
    requires |c.hist| <= j < |FlushLog(CloseAll(UndoAll(c, log, losers), xs)).hist|
    ensures i <= |wal|
    ensures var d := FlushLog(CloseAll(UndoAll(c, log, losers), xs)).hist[j];
            && Resumable(wal, d, c.cfg.pageSize) && d.master == c.master && log <= d.wal
            && (forall k :: DiskPage(d.files, c.cfg.pageSize, k)
                         == UndoPage(Upd(wal[i..], k), losers, DiskPage(c.files, c.cfg.pageSize, k)))
            && forall x, m :: 0 <= m < i && EndsIn(d.wal, |log|, x) ==> wal[m].xid != x
  {
    hide LogInv, OnDisk, Present, DiskPage, OnlyEnds, FilesOk, UndoAll, CloseAll, FlushLog, Passes, FullLog, Recorded, Resumable,
         EndsIn;
    var ps := c.cfg.pageSize;
    var c2 := UndoAll(c, log, losers);
    var c3 := CloseAll(c2, xs);
    var c4 := FlushLog(c3);
    NothingBuffered(c);
    CloseAllPasses(c2, xs);
    FlushPasses(c3);
    PassesThen(c2, c3, c4);
    PassesStates(c2, c4, c4);
    UndoAllKeeps(c, log, losers, log);
    LastAtLeast(wal, log, ps);
    var n: nat;
    if j < |c2.hist| {
      n := UndoPasses(c, log, losers, log, j);
      assert c4.hist[j] == c2.hist[j] by {
        SameState(c2, c4, j);
      }
      UndoneLog(wal, log, c, log[n..], losers, c4.hist[j]);
      ClosedWhole(wal, log, c, n, losers, c4.hist[j]);
    } else {
      n := 0;
      assert log[0..] == log;
      ClosedLog(wal, log, c, losers, xs, c4.hist[j]);
    }
    i := Min(n, |wal|);
    var c' := UndoAll(c, log[n..], losers);
    UndoAllPresent(c, log[n..], losers, log);
    UndoAllKeeps(c, log[n..], losers, log);
    StaysResumable(wal, log, c4.hist[j], c', ps);
    forall k ensures DiskPage(c'.files, ps, k) == UndoPage(Upd(wal[i..], k), losers, DiskPage(c.files, ps, k)) {
      TailReady(c, log, n, losers);
      UndoAllPages(c, log[n..], losers, k);
      UpdSplit(wal, log, Last(wal).lsn, n, k);
    }
  }

  lemma SameState(c: Core, c': Core, j: nat)
    requires Passes(c, c') && j < |c.hist|
    ensures c'.hist[j] == c.hist[j]
  {
  }

  lemma TailReady(c: Core, log: seq<Rec>, n: nat, losers: set<int>)
    requires Present(c, log) && n <= |log|
    ensures UndoReady(c, log[n..], losers)
  {
    hide FilesOk, Tight, OnDisk, ValidFileId;
    forall i | 0 <= i < |log[n..]| && log[n..][i].body.Update?
      ensures ValidFileId(log[n..][i].body.key.file) && OnDisk(c.files, log[n..][i].body.key)
    {
      assert log[n..][i] == log[n + i];
    }
  }

  /** Undo writes the end record of a transaction where it has undone its first update. */
  lemma {:induction false} UndoAllEnds(c: Core, recs: seq<Rec>, losers: set<int>, x: int)
    requires EndsIn(FullLog(UndoAll(c, recs, losers)), |FullLog(c)|, x)
    ensures exists m :: 0 <= m < |recs| && recs[m].xid == x && FirstOf(recs[m], losers)
    decreases |recs|
  {
    hide UndoRec, FullLog, FirstOf;
    if recs != [] {
      var c1 := UndoRec(c, Last(recs), losers);
      var full := FullLog(UndoAll(c, recs, losers));
      UndoRecEnds(c, Last(recs), losers);
      FullLogGrows(c1, Front(recs), losers);
      var i :| |FullLog(c)| <= i < |full| && full[i].xid == x;
      if i < |FullLog(c1)| {
        assert recs[|recs| - 1].xid == x && FirstOf(recs[|recs| - 1], losers);
      } else {
        assert EndsIn(full, |FullLog(c1)|, x);
        UndoAllEnds(c1, Front(recs), losers, x);
        var m :| 0 <= m < |recs| - 1 && Front(recs)[m].xid == x && FirstOf(Front(recs)[m], losers);
        assert recs[m] == Front(recs)[m];
      }
    }
  }

  lemma UndoRecEnds(c: Core, r: Rec, losers: set<int>)
    ensures var a, b := FullLog(c), FullLog(UndoRec(c, r, losers));
            a <= b && forall i :: |a| <= i < |b| ==> FirstOf(r, losers) && b[i].xid == r.xid
  {
    hide FlushLog, DiskWrite, Unpatch;
    if r.body.Update? && r.xid in losers {
      var c1 := RestorePage(c, r);
      assert FullLog(c1) == FullLog(c);
      if r.prev == NO_LSN {
        var e := MakeRec(c1, c1.nextLsn, r.xid, End);
        var c2 := Buffered(c1.(nextLsn := c1.nextLsn + 1), c1.nextLsn, r.xid, End);
        assert FullLog(c2) == FullLog(c1) + [e];
        FlushCounted(c2);
        assert FullLog(CloseTx(c1, r.xid)) == FullLog(c1) + [e];
      }
    }
  }

  lemma FullLogGrows(c: Core, recs: seq<Rec>, losers: set<int>)
    ensures FullLog(c) <= FullLog(UndoAll(c, recs, losers))
  {
    hide UndoAll, FullLog;
    UndoAllCounted(c, recs, losers);
  }

  /** The first record of a transaction has none of it before. */
  lemma NoneBefore(wal: seq<Rec>, m: nat, i: nat, ps: nat)
    requires ps >= HEADER_SIZE && LogInv(wal, ps) && i < m < |wal| && wal[m].xid >= 0 && wal[m].prev == NO_LSN
    ensures wal[i].xid != wal[m].xid
  {
    RecAt(wal, m, ps);
    if wal[i].xid == wal[m].xid {
      assert wal[..m][i] == wal[i];
      HasLast(wal[..m], i);
    }
  }

  lemma {:induction false} HasLast(log: seq<Rec>, i: nat)
    requires i < |log|
    ensures LastLsn(log, log[i].xid) != NO_LSN
  {
    if Last(log).xid != log[i].xid {
      assert i < |log| - 1 && Front(log)[i] == log[i];
      HasLast(Front(log), i);
    }
  }

  /** Every transaction that gets its end record while a tail is undone lies in that tail whole. */
  lemma ClosedWhole(wal: seq<Rec>, log: seq<Rec>, c: Core, n: nat, losers: set<int>, d: Durable)
    requires RedoEnded(wal, log, c) && n <= |log| && log <= d.wal <= FullLog(UndoAll(c, log[n..], losers))
    ensures forall x, m :: 0 <= m < n && m < |wal| && EndsIn(d.wal, |log|, x) ==> wal[m].xid != x
  {
    hide Present, LogInv, UndoAll, FullLog, Recorded, IsEnd, Losers;
    NothingBuffered(c);
    forall x, m | 0 <= m < n && m < |wal| && EndsIn(d.wal, |log|, x) ensures wal[m].xid != x {
      var full := FullLog(UndoAll(c, log[n..], losers));
      assert EndsIn(full, |log|, x) by {
        var i :| |log| <= i < |d.wal| && d.wal[i].xid == x;
        assert full[i] == d.wal[i];
      }
      UndoAllEnds(c, log[n..], losers, x);
      var l :| 0 <= l < |log[n..]| && log[n..][l].xid == x && FirstOf(log[n..][l], losers);
      assert log[n + l] == log[n..][l];
      FirstInWal(wal, log, n + l, losers);
      UpdateXid(wal, n + l, c.cfg.pageSize);
      NoneBefore(wal, n + l, m, c.cfg.pageSize);
    }
  }

  lemma FirstInWal(wal: seq<Rec>, log: seq<Rec>, i: nat, losers: set<int>)
    requires wal != [] && OnlyEnds(wal, log, Last(wal).lsn) && i < |log| && FirstOf(log[i], losers)
    ensures i < |wal| && wal[i] == log[i]
  {
    assert i >= |wal| ==> IsEnd(log[i], Last(wal).lsn);
  }

  lemma UpdateXid(wal: seq<Rec>, i: nat, ps: nat)
    requires ps >= HEADER_SIZE && LogInv(wal, ps) && i < |wal| && wal[i].body.Update?
    ensures wal[i].xid >= 0
  {
    RecAt(wal, i, ps);
  }

  /** A log between that of redo and that of undo. */
  lemma UndoneLog(wal: seq<Rec>, log: seq<Rec>, c: Core, recs: seq<Rec>, losers: set<int>, d: Durable)
    requires RedoEnded(wal, log, c) && log <= d.wal <= FullLog(UndoAll(c, recs, losers))
    ensures OnlyEnds(wal, d.wal, Last(wal).lsn)
  {
    hide LogInv, Present, UndoAll, Recorded, FullLog, OnlyEnds, EndsIn;
    NothingBuffered(c);
    UndoAllCloses(c, recs, losers);
    BetweenEnds(wal, log, FullLog(UndoAll(c, recs, losers)), d.wal, c.cfg.pageSize);
  }

  lemma ClosedLog(wal: seq<Rec>, log: seq<Rec>, c: Core, losers: set<int>, xs: seq<int>, d: Durable)
    requires RedoEnded(wal, log, c) && log <= d.wal <= FullLog(FlushLog(CloseAll(UndoAll(c, log, losers), xs)))
    ensures OnlyEnds(wal, d.wal, Last(wal).lsn)
  {
    hide LogInv, Present, UndoAll, CloseAll, FlushLog, Recorded, FullLog, OnlyEnds, EndsIn;
    NothingBuffered(c);
    UndoAllCloses(c, log, losers);
    var c2 := UndoAll(c, log, losers);
    CloseAllCloses(c2, xs);
    ClosesThen(c, c2, CloseAll(c2, xs));
    FlushCloses(CloseAll(c2, xs));
    BetweenEnds(wal, log, FullLog(CloseAll(c2, xs)), d.wal, c.cfg.pageSize);
  }

  lemma BetweenEnds(wal: seq<Rec>, log: seq<Rec>, full: seq<Rec>, mid: seq<Rec>, ps: nat)
    requires ps >= HEADER_SIZE && LogInv(wal, ps) && wal != [] && OnlyEnds(wal, log, Last(wal).lsn) && log != []
    requires OnlyEnds(log, full, Last(log).lsn) && log <= mid <= full
    ensures OnlyEnds(wal, mid, Last(wal).lsn)
  {
    hide LogInv;
    LastAtLeast(wal, log, ps);
    EndsThen(wal, log, full, Last(wal).lsn, Last(log).lsn);
    EndsPrefix(wal, mid, full, Last(wal).lsn);
  }

  /** One recovery from such a state, cut off at any of its durable states or complete: what it leaves. */
  lemma StopPoint(cfg: Config, hist: seq<Durable>, xs: seq<int>, wal: seq<Rec>, j: nat) returns (stop: Stop)
    requires hist != [] && Resumable(wal, Last(hist), cfg.pageSize) && |hist| - 1 <= j < |Recover(cfg, hist, xs).hist|
    ensures StopIn(stop, wal)
    ensures var d, d' := Last(hist), Recover(cfg, hist, xs).hist[j];
            && Resumable(wal, d', cfg.pageSize) && d'.master == d.master && d.wal <= d'.wal
            && (forall k :: var p := DiskPage(d.files, cfg.pageSize, k);
                  |p| == cfg.pageSize
                  && DiskPage(d'.files, cfg.pageSize, k) == Stopped(wal, Open(wal, d.wal), Analyse(wal, d.master).dpt, k, p, stop))
            && (stop.InUndo? ==> forall x, m :: 0 <= m < stop.i && EndsIn(d'.wal, |d.wal|, x) ==> wal[m].xid != x)
  {
    hide Analyse, LogInv, RedoAll, Present, UndoLosers, Open, DiskPage, OnlyEnds, FilesOk, CloseAll, UndoAll, FlushLog, Recorded,
         Resumable, EndsIn;
    var d, ps := Last(hist), cfg.pageSize;
    var c := Analysed(cfg, hist);
    ResumablePresent(cfg, hist, wal);
    var c1 := RedoAll(c, d.wal);
    RedoRecorded(c, d.wal);
    RecoverStates(cfg, hist, xs, c1, wal);
    if j < |c1.hist| {
      stop := RedoStop(cfg, hist, wal, j);
    } else {
      var i := UndoStop(wal, d.wal, c1, Open(wal, d.wal), xs, j);
      stop := InUndo(i);
      forall k
        ensures var p := DiskPage(d.files, ps, k);
                |p| == ps && DiskPage(c1.files, ps, k) == RedoneOver(Upd(wal, k), c.dpt, k, p)
      {
        ResumedRedo(cfg, hist, wal, k);
      }
    }
  }

  lemma RecoverStates(cfg: Config, hist: seq<Durable>, xs: seq<int>, c1: Core, wal: seq<Rec>)
    requires hist != [] && Resumable(wal, Last(hist), cfg.pageSize) && c1 == RedoAll(Analysed(cfg, hist), Last(hist).wal)
    ensures RedoEnded(wal, Last(hist).wal, c1) && c1.master == Last(hist).master && c1.cfg == cfg
    ensures Recover(cfg, hist, xs) == FlushLog(CloseAll(UndoAll(c1, Last(hist).wal, Open(wal, Last(hist).wal)), xs))
    ensures forall j :: 0 <= j < |c1.hist| ==> j < |Recover(cfg, hist, xs).hist| && Recover(cfg, hist, xs).hist[j] == c1.hist[j]
  {
    hide Analyse, LogInv, RedoAll, Present, UndoLosers, Open, OnlyEnds, FilesOk, OnDisk, CloseAll, UndoAll, FlushLog, FullLog, Passes;
    var log := Last(hist).wal;
    var c := Analysed(cfg, hist);
    ResumablePresent(cfg, hist, wal);
    RedoRecorded(c, log);
    RedoPresent(c, log, log);
    var c2 := UndoAll(c1, log, Open(wal, log));
    UndoAllKeeps(c1, log, Open(wal, log), log);
    CloseAllPasses(c2, xs);
    FlushPasses(CloseAll(c2, xs));
    PassesThen(c2, CloseAll(c2, xs), FlushLog(CloseAll(c2, xs)));
    PassesStates(c2, FlushLog(CloseAll(c2, xs)), FlushLog(CloseAll(c2, xs)));
  }

  lemma ResumedRedo(cfg: Config, hist: seq<Durable>, wal: seq<Rec>, k: PageKey)
    requires hist != [] && Resumable(wal, Last(hist), cfg.pageSize)
    ensures var d := Last(hist); var p := DiskPage(d.files, cfg.pageSize, k);
            && |p| == cfg.pageSize
            && DiskPage(RedoAll(Analysed(cfg, hist), d.wal).files, cfg.pageSize, k)
               == RedoneOver(Upd(wal, k), Analyse(wal, d.master).dpt, k, p)
  {
    hide Analyse, LogInv, OnDisk, RedoAll, Present, Again, UndoLosers, Open, DiskPage, OnlyEnds, FilesOk;
    var d := Last(hist);
    ResumablePresent(cfg, hist, wal);
    PageSized(d.files, cfg.pageSize, k);
    RedoAllAgain(Analysed(cfg, hist), d.wal, d.wal, k);
    EndsUpd(wal, d.wal, Last(wal).lsn, k);
  }

  // ---------------------------------------------------------------- recoveries that complete

  /** The page after a complete recovery from such a state. */
  lemma ResumedPage(cfg: Config, hist: seq<Durable>, xs: seq<int>, wal: seq<Rec>, k: PageKey)
    requires hist != [] && Resumable(wal, Last(hist), cfg.pageSize)
    ensures var d := Last(hist); var p := DiskPage(d.files, cfg.pageSize, k);
            && |p| == cfg.pageSize
            && DiskPage(Recover(cfg, hist, xs).files, cfg.pageSize, k)
               == UndoPage(Upd(wal, k), Open(wal, d.wal), RedoneOver(Upd(wal, k), Analyse(wal, d.master).dpt, k, p))
  {
    hide Analyse, LogInv, RedoAll, Present, UndoLosers, Open, DiskPage, OnlyEnds, FilesOk, CloseAll, UndoAll, FlushLog, OnDisk;
    var d := Last(hist);
    var c1 := RedoAll(Analysed(cfg, hist), d.wal);
    RecoverStates(cfg, hist, xs, c1, wal);
    ResumedRedo(cfg, hist, wal, k);
    var open := Open(wal, d.wal);
    PresentReady(c1, d.wal, open);
    UndoAllPages(c1, d.wal, open, k);
    EndsUpd(wal, d.wal, Last(wal).lsn, k);
    CloseAllPages(UndoAll(c1, d.wal, open), xs);
    FlushPasses(CloseAll(UndoAll(c1, d.wal, open), xs));
  }

  /** Byte by byte: one that an open loser altered gets back its value before the first such change; any other is what
      the last update that redo applies over it writes, and as the cut had left it if there is none. */
  lemma ResumedByte(cfg: Config, hist: seq<Durable>, xs: seq<int>, wal: seq<Rec>, k: PageKey, b: nat)
    requires hist != [] && Resumable(wal, Last(hist), cfg.pageSize) && b < cfg.pageSize
    ensures var d := Last(hist); var us, dpt, p := Upd(wal, k), Analyse(wal, d.master).dpt, DiskPage(d.files, cfg.pageSize, k);
            var q := DiskPage(Recover(cfg, hist, xs).files, cfg.pageSize, k);
            var f := FirstLoser(us, Open(wal, d.wal), b);
            && |p| == |q| == cfg.pageSize
            && q[b] == if f < |us| then Replay(us[..f], Zeros(cfg.pageSize))[b]
                       else if k in dpt && LastApplied(us, dpt[k], p, b) < |us| then AfterByte(us[LastApplied(us, dpt[k], p, b)], b)
                       else p[b]
  {
    hide Analyse, LogInv, Open, DiskPage, OnlyEnds, FilesOk, Recover, UndoPage, Replay, Again, Consistent, OnDisk;
    var d, ps := Last(hist), cfg.pageSize;
    var us, dpt, p := Upd(wal, k), Analyse(wal, d.master).dpt, DiskPage(d.files, ps, k);
    ResumedPage(cfg, hist, xs, wal, k);
    HistoryConsistent(wal, k, ps);
    UndoByte(us, Open(wal, d.wal), RedoneOver(us, dpt, k, p), b, ps);
    if k in dpt {
      AgainByte(us, dpt[k], p, b);
    }
  }

  // ---------------------------------------------------------------- any number of cuts

  /** One recovery after the other, each cut off at one of its own durable states. */
  ghost predicate Cutting(cfg: Config, hist: seq<Durable>, cuts: seq<Cut>)
    decreases |cuts|
  {
    hist != [] &&
    (cuts == [] ||
     (&& |hist| - 1 <= cuts[0].j < |Recover(cfg, hist, cuts[0].xs).hist|
      && Cutting(cfg, Recover(cfg, hist, cuts[0].xs).hist[..cuts[0].j + 1], cuts[1..])))
  }

  ghost function CutHist(cfg: Config, hist: seq<Durable>, cuts: seq<Cut>): (h: seq<Durable>)
    requires Cutting(cfg, hist, cuts)
    ensures h != []
    decreases |cuts|
  {
    if cuts == [] then hist else CutHist(cfg, Recover(cfg, hist, cuts[0].xs).hist[..cuts[0].j + 1], cuts[1..])
  }

  predicate StopsIn(stops: seq<Stop>, wal: seq<Rec>) {
    forall i :: 0 <= i < |stops| ==> StopIn(stops[i], wal)
  }

  /** The page after all of them: the losers still open shrink from one to the next. */
  ghost function CutPage(cfg: Config, hist: seq<Durable>, cuts: seq<Cut>, stops: seq<Stop>, wal: seq<Rec>, k: PageKey, p: Bytes): (q: Bytes)
    requires Cutting(cfg, hist, cuts) && |stops| == |cuts| && StopsIn(stops, wal) && |p| >= HEADER_SIZE
    ensures |q| == |p|
    decreases |cuts|
  {
    if cuts == [] then p
    else
      var d := Last(hist);
      CutPage(cfg, Recover(cfg, hist, cuts[0].xs).hist[..cuts[0].j + 1], cuts[1..], stops[1..], wal, k,
              Stopped(wal, Open(wal, d.wal), Analyse(wal, d.master).dpt, k, p, stops[0]))
  }

  lemma {:induction false} CutsStop(cfg: Config, hist: seq<Durable>, cuts: seq<Cut>, wal: seq<Rec>) returns (stops: seq<Stop>)
    requires Cutting(cfg, hist, cuts) && Resumable(wal, Last(hist), cfg.pageSize)
    ensures |stops| == |cuts| && StopsIn(stops, wal)
    ensures var h := CutHist(cfg, hist, cuts);
            && Resumable(wal, Last(h), cfg.pageSize) && Last(h).master == Last(hist).master && Last(hist).wal <= Last(h).wal
            && forall k :: |DiskPage(Last(hist).files, cfg.pageSize, k)| == cfg.pageSize
                        && DiskPage(Last(h).files, cfg.pageSize, k)
                           == CutPage(cfg, hist, cuts, stops, wal, k, DiskPage(Last(hist).files, cfg.pageSize, k))
    decreases |cuts|
  {
    hide Resumable, Recover, Stopped, Analyse, Open, DiskPage, EndsIn;
    forall k ensures |DiskPage(Last(hist).files, cfg.pageSize, k)| == cfg.pageSize {
      ResumableSized(wal, Last(hist), cfg.pageSize, k);
    }
    if cuts == [] {
      stops := [];
    } else {
      var stop := StopPoint(cfg, hist, cuts[0].xs, wal, cuts[0].j);
      var h1 := Recover(cfg, hist, cuts[0].xs).hist[..cuts[0].j + 1];
      assert Last(h1) == Recover(cfg, hist, cuts[0].xs).hist[cuts[0].j];
      var rest := CutsStop(cfg, h1, cuts[1..], wal);
      stops := [stop] + rest;
      assert stops[1..] == rest;
    }
  }

  lemma ResumableSized(wal: seq<Rec>, d: Durable, ps: nat, k: PageKey)
    requires Resumable(wal, d, ps)
    ensures |DiskPage(d.files, ps, k)| == ps >= HEADER_SIZE
  {
    PageSized(d.files, ps, k);
  }

  /** The first recovery after a crash, cut off once redo is done. */
  lemma FirstStop(cfg: Config, hist: seq<Durable>, xs: seq<int>, j: nat) returns (i: nat)
    requires AllCrashOk(cfg, hist) && Last(hist).wal != []
    requires |RedoAll(Analysed(cfg, hist), Last(hist).wal).hist| <= j < |Recover(cfg, hist, xs).hist|
    ensures i <= |Last(hist).wal|
    ensures var d, d' := Last(hist), Recover(cfg, hist, xs).hist[j];
            && Resumable(d.wal, d', cfg.pageSize) && d'.master == d.master
            && (forall k :: DiskPage(d'.files, cfg.pageSize, k)
                         == UndoPage(Upd(d.wal[i..], k), Losers(d.wal), RedonePage(d, cfg.pageSize, k)))
            && forall x, m :: 0 <= m < i && EndsIn(d'.wal, |d.wal|, x) ==> d.wal[m].xid != x
  {
    hide Analyse, LogInv, RedoAll, Present, Losers, DiskPage, FilesOk, CloseAll, UndoAll, FlushLog, CrashInv, Resumable, EndsIn,
         RedonePage, Recorded;
    var d, ps := Last(hist), cfg.pageSize;
    var c := Analysed(cfg, hist);
    assert CrashInv(d, ps);
    WalInv(d, ps);
    AnalysisTx(d.wal, d.master, ps);
    UndoLosersAre(c.tx, d.wal, ps);
    RedonePresent(cfg, hist);
    RestartRecorded(cfg, hist);
    RedoRecorded(c, d.wal);
    i := UndoStop(d.wal, d.wal, RedoAll(c, d.wal), Losers(d.wal), xs, j);
    forall k ensures DiskPage(RedoAll(c, d.wal).files, ps, k) == RedonePage(d, ps, k) {
      RedoneAlways(cfg, hist, k);
    }
  }

  /** A recovery cut off in Undo or later, further recoveries cut off anywhere. */
  ghost predicate CutsFit(cfg: Config, hist: seq<Durable>, first: Cut, cuts: seq<Cut>) {
    && hist != [] && Last(hist).wal != [] && cfg.pageSize >= HEADER_SIZE
    && |RedoAll(Analysed(cfg, hist), Last(hist).wal).hist| <= first.j < |Recover(cfg, hist, first.xs).hist|
    && Cutting(cfg, Recover(cfg, hist, first.xs).hist[..first.j + 1], cuts)
  }

  /** What the recovery that completes leaves on page k, if the first undid the records from i on and the others
      stopped as `stops` says. */
  ghost function FinalPage(cfg: Config, hist: seq<Durable>, first: Cut, cuts: seq<Cut>, i: nat, stops: seq<Stop>, k: PageKey): Bytes
    requires CutsFit(cfg, hist, first, cuts)
    requires i <= |Last(hist).wal| && |stops| == |cuts| && StopsIn(stops, Last(hist).wal)
  {
    var d, h1 := Last(hist), Recover(cfg, hist, first.xs).hist[..first.j + 1];
    var p := UndoPage(Upd(d.wal[i..], k), Losers(d.wal), RedonePage(d, cfg.pageSize, k));
    var q := CutPage(cfg, h1, cuts, stops, d.wal, k, p);
    UndoPage(Upd(d.wal, k), Open(d.wal, Last(CutHist(cfg, h1, cuts)).wal),
             RedoneOver(Upd(d.wal, k), Analyse(d.wal, d.master).dpt, k, q))
  }

  /** The recovery that completes leaves exactly these pages. */
  ghost predicate EndsWith(cfg: Config, hist: seq<Durable>, first: Cut, cuts: seq<Cut>, xs: seq<int>, i: nat, stops: seq<Stop>)
    requires CutsFit(cfg, hist, first, cuts)
  {
    && i <= |Last(hist).wal| && |stops| == |cuts| && StopsIn(stops, Last(hist).wal)
    && var h := CutHist(cfg, Recover(cfg, hist, first.xs).hist[..first.j + 1], cuts);
    forall k :: DiskPage(Recover(cfg, h, xs).files, cfg.pageSize, k) == FinalPage(cfg, hist, first, cuts, i, stops, k)
  }

  /** A crash, a recovery cut off in Undo, further recoveries cut off anywhere, and one that completes: the pages. */
  lemma CutAnywhere(cfg: Config, hist: seq<Durable>, first: Cut, cuts: seq<Cut>, xs: seq<int>) returns (i: nat, stops: seq<Stop>)
    requires AllCrashOk(cfg, hist) && CutsFit(cfg, hist, first, cuts)
    ensures EndsWith(cfg, hist, first, cuts, xs, i, stops)
  {
    hide Analyse, RedoAll, Losers, DiskPage, CrashInv, Resumable, EndsIn, RedonePage, Recover, UndoPage, RedoneOver, Open, CutPage,
         CutHist, Cutting;
    var d, h1 := Last(hist), Recover(cfg, hist, first.xs).hist[..first.j + 1];
    i := FirstStop(cfg, hist, first.xs, first.j);
    assert Last(h1) == Recover(cfg, hist, first.xs).hist[first.j];
    stops := CutsStop(cfg, h1, cuts, d.wal);
    var h := CutHist(cfg, h1, cuts);
    forall k ensures DiskPage(Recover(cfg, h, xs).files, cfg.pageSize, k) == FinalPage(cfg, hist, first, cuts, i, stops, k) {
      ResumedPage(cfg, h, xs, d.wal, k);
    }
  }

  /** The same after any run from an empty directory with crashes and restarts in it, a last crash, and recoveries
      cut off in Redo before the one that is cut off in Undo. */
  lemma EndToEndCuts(cfg: Config, poolSize: nat, policy: Policy, steps: seq<Step>, op: Op, j: nat, js: seq<nat>, first: Cut,
                     cuts: seq<Cut>, xs: seq<int>)
      returns (i: nat, stops: seq<Stop>)
    requires CrashedRun(cfg, poolSize, policy, steps, op, j)
    requires RedoCutsOk(cfg, CrashedHist(cfg, poolSize, policy, steps, op, j), js)
    requires CutsFit(cfg, AfterRedoCuts(cfg, CrashedHist(cfg, poolSize, policy, steps, op, j), js), first, cuts)
    ensures EndsWith(cfg, AfterRedoCuts(cfg, CrashedHist(cfg, poolSize, policy, steps, op, j), js), first, cuts, xs, i, stops)
  {
    hide CrashedHist, AllCrashOk, AfterRedoCuts, RedoCutsOk, CutsFit, EndsWith;
    CrashedRunOk(cfg, poolSize, policy, steps, op, j);
    var h0 := CrashedHist(cfg, poolSize, policy, steps, op, j);
    RedoCutsInv(cfg, h0, js);
    i, stops := CutAnywhere(cfg, AfterRedoCuts(cfg, h0, js), first, cuts, xs);
  }
}
