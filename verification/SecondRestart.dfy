/** What the restart after a recovery does. It finds no losers, and runs redo over the pages undo left; since
    undo also takes the pageLSN back, that can bring undone changes back. */
module SecondRestart {
  import opened Pages
  import opened Log
  import opened Engine
  import opened CoreInvariant
  import opened Analysis
  import opened Redo
  import opened Undo
  import opened Recovery
  import opened PoolInvariant
  import opened LostUpdate
  import opened FullRecovery
  import opened AfterRecovery

  /** Redo looks at the record's page. */
  predicate Eligible(c: Core, r: Rec) {
    r.body.Update? && r.body.key in c.dpt && r.lsn >= c.dpt[r.body.key]
  }

  /** The page is there and claims to hold the update. */
  predicate Claimed(c: Core, r: Rec) {
    && r.body.Update? && OnDisk(c.files, r.body.key)
    && |DiskPage(c.files, c.cfg.pageSize, r.body.key)| >= HEADER_SIZE
    && PageLsn(DiskPage(c.files, c.cfg.pageSize, r.body.key)) >= r.lsn
  }

  predicate Settled(c: Core, recs: seq<Rec>) {
    forall i :: 0 <= i < |recs| && Eligible(c, recs[i]) ==> Claimed(c, recs[i])
  }

  ghost predicate RedoReady(c: Core, recs: seq<Rec>) {
    && FilesOk(c.files, c.cfg.pageSize) && Tight(c) && c.cfg.pageSize >= HEADER_SIZE
    && forall i :: 0 <= i < |recs| && recs[i].body.Update? ==> ValidFileId(recs[i].body.key.file)
  }

  lemma {:induction false} ZerosGrow(c: Core, f: string, n: nat)
    ensures |WriteZeros(c, f, n).hist| >= |c.hist|
    decreases n
  {
    if n > 0 {
      ZerosGrow(DiskWrite(c, PageKey(f, NumPages(c, f)), Zeros(c.cfg.pageSize)).0, f, n - 1);
    }
  }

  lemma RedoRecGrows(c: Core, r: Rec)
    ensures |RedoRec(c, r).hist| >= |c.hist|
  {
    if r.body.Update? {
      var c1 := if FileExists(c, r.body.key.file) then c else CreateFile(c, r.body.key.file);
      ZerosGrow(c1, r.body.key.file, MissingPages(c1, r.body.key));
    }
  }

  /** A record whose page claims it is skipped; any other eligible one writes its page. */
  lemma RedoRecWrites(c: Core, r: Rec)
    requires RedoReady(c, [r])
    ensures RedoRec(c, r) == c <==> (Eligible(c, r) ==> Claimed(c, r))
    ensures RedoRec(c, r) != c ==> |RedoRec(c, r).hist| > |c.hist|
  {
    hide PageLsn, PutPage, Patch, WriteZeros;
    assert [r][0] == r;
    if Eligible(c, r) {
      var k := r.body.key;
      if FileExists(c, k.file) && k.pid < NumPages(c, k.file) {
        assert OnDisk(c.files, k);
      } else {
        var c1 := if FileExists(c, k.file) then c else CreateFile(c, k.file);
        FirstZero(c1, k.file, MissingPages(c1, k));
        assert |EnsurePage(c, k).hist| > |c.hist|;
        assert !OnDisk(c.files, k);
      }
    }
  }

  lemma FirstZero(c: Core, f: string, n: nat)
    requires n > 0 && ValidFileId(f)
    ensures |WriteZeros(c, f, n).hist| > |c.hist|
  {
    hide DiskWrite;
    var k := PageKey(f, NumPages(c, f));
    ZeroWritten(c, k);
    ZerosGrow(DiskWrite(c, k, Zeros(c.cfg.pageSize)).0, f, n - 1);
  }

  lemma ZeroWritten(c: Core, k: PageKey)
    requires k.pid == NumPages(c, k.file) && ValidFileId(k.file)
    ensures |DiskWrite(c, k, Zeros(c.cfg.pageSize)).0.hist| > |c.hist|
  {
    hide PutPage;
  }

  /** Redo writes to no page exactly when every eligible record's page claims the update. */
  lemma {:induction false} RedoTouchesNothing(c: Core, recs: seq<Rec>)
    requires RedoReady(c, recs)
    ensures RedoAll(c, recs) == c <==> Settled(c, recs)
    ensures RedoAll(c, recs) != c ==> |RedoAll(c, recs).hist| > |c.hist|
  {
    hide RedoRec, Claimed, Eligible;
    if recs != [] {
      var front, r := Front(recs), Last(recs);
      assert recs == front + [r];
      RedoTouchesNothing(c, front);
      RedoRecGrows(RedoAll(c, front), r);
      RedoRecWrites(c, r);
      assert Settled(c, recs) <==> Settled(c, front) && (Eligible(c, r) ==> Claimed(c, r));
    }
  }

  // ---------------------------------------------------------------- the second Redo

  /** Redo applies update u to the page p: it is not below the page's recLSN and above its pageLSN. */
  predicate Applied(u: Rec, rec: nat, p: Bytes)
    requires |p| >= HEADER_SIZE
  {
    u.lsn >= rec && PageLsn(p) < u.lsn
  }

  /** Redo run over a page once more: the updates it applies, winners' and losers' alike. */
  function Again(us: seq<Rec>, rec: nat, p: Bytes): (q: Bytes)
    requires |p| >= HEADER_SIZE
    ensures |q| == |p|
  {
    if us == [] then p
    else
      var q := Again(Front(us), rec, p);
      if Applied(Last(us), rec, q) then Patch(q, Last(us)) else q
  }

  lemma RedoRecAgain(c: Core, r: Rec, all: seq<Rec>, k: PageKey)
    requires Present(c, all) && r in all && c.cfg.pageSize >= HEADER_SIZE
    ensures var c' := RedoRec(c, r); var p := DiskPage(c.files, c.cfg.pageSize, k);
            && Present(c', all) && c'.cfg == c.cfg && c'.dpt == c.dpt
            && (r.body.Update? && r.body.key == k && k in c.dpt ==> |p| == c.cfg.pageSize)
            && DiskPage(c'.files, c.cfg.pageSize, k)
               == if r.body.Update? && r.body.key == k && k in c.dpt && Applied(r, c.dpt[k], p) then Patch(p, r) else p
  {
    hide PageLsn, Patch;
    if r.body.Update? {
      var j := r.body.key;
      assert ValidFileId(j.file) && OnDisk(c.files, j);
      var page := DiskPage(c.files, c.cfg.pageSize, j);
      WritePresent(c, j, Patch(page, r), all);
      PutPageEffect(c.files, c.cfg.pageSize, j, Patch(page, r), k);
      assert FileExists(c, j.file) && j.pid < NumPages(c, j.file);
      hide DiskPage, Present, DiskWrite, RawWrite;
    }
  }

  lemma {:induction false} RedoAllAgain(c: Core, recs: seq<Rec>, all: seq<Rec>, k: PageKey)
    requires Present(c, all) && c.cfg.pageSize >= HEADER_SIZE && forall r :: r in recs ==> r in all
    requires |DiskPage(c.files, c.cfg.pageSize, k)| == c.cfg.pageSize
    ensures var c' := RedoAll(c, recs); var p := DiskPage(c.files, c.cfg.pageSize, k);
            && Present(c', all) && c'.cfg == c.cfg && c'.dpt == c.dpt
            && DiskPage(c'.files, c.cfg.pageSize, k) == if k in c.dpt then Again(Upd(recs, k), c.dpt[k], p) else p
  {
    hide RedoRec, DiskPage, Present, Applied, Patch;
    if recs != [] {
      RedoAllAgain(c, Front(recs), all, k);
      RedoRecAgain(RedoAll(c, Front(recs)), Last(recs), all, k);
      if Last(recs).body.Update? && Last(recs).body.key == k {
        assert Front(Upd(recs, k)) == Upd(Front(recs), k);
      }
    }
  }

  // ---------------------------------------------------------------- the second recovery

  /** A restart after a recovery, losers or not: the page that recovery left, with redo run over it once
      more if Analysis lists it, and nothing undone. */
  lemma SecondRecoveryPage(cfg: Config, hist: seq<Durable>, xs: seq<int>, ys: seq<int>, k: PageKey)
    requires AllCrashOk(cfg, hist)
    ensures Recover(cfg, hist, xs).hist != []
    ensures var d, c1 := Last(hist), Recover(cfg, hist, xs);
            var us, dpt := Upd(d.wal, k), Analyse(d.wal, d.master).dpt;
            var p := UndoPage(us, Losers(d.wal), RedonePage(d, cfg.pageSize, k));
            && DiskPage(c1.files, cfg.pageSize, k) == p
            && DiskPage(Recover(cfg, c1.hist, ys).files, cfg.pageSize, k)
               == if k in dpt then Again(us, dpt[k], p) else p
  {
    hide Analyse, RedoAll, CrashInv, DiskPage, RedonePage, Again, Recover;
    RecoveredAlways(cfg, hist, xs, k);
    if Last(hist).wal == [] {
      EmptyTwice(cfg, hist, xs, ys);
    } else {
      FirstLeaves(cfg, hist, xs);
      LeftRecovered(cfg, Last(hist), Recover(cfg, hist, xs), ys, k) by {
        assert CrashInv(Last(hist), cfg.pageSize);
        WalInv(Last(hist), cfg.pageSize);
      }
    }
  }

  lemma EmptyTwice(cfg: Config, hist: seq<Durable>, xs: seq<int>, ys: seq<int>)
    requires hist != [] && Last(hist).wal == []
    ensures Recover(cfg, hist, xs).hist == hist && Recover(cfg, hist, ys).files == Recover(cfg, hist, xs).files
    ensures Analyse(Last(hist).wal, Last(hist).master).dpt == map[]
  {
    NoDpt(Last(hist).master);
  }

  lemma LeftRecovered(cfg: Config, d: Durable, c1: Core, ys: seq<int>, k: PageKey)
    requires cfg.pageSize >= HEADER_SIZE && LogInv(d.wal, cfg.pageSize) && LeftBehind(d, c1) && c1.cfg == cfg
    requires |DiskPage(c1.files, cfg.pageSize, k)| == cfg.pageSize
    ensures var dpt := Analyse(d.wal, d.master).dpt; var p := DiskPage(c1.files, cfg.pageSize, k);
            DiskPage(Recover(cfg, c1.hist, ys).files, cfg.pageSize, k)
            == if k in dpt then Again(Upd(d.wal, k), dpt[k], p) else p
  {
    hide Analyse, RedoAll, LogInv, DiskPage, Again, UndoAll, CloseAll, Present, EndsIn, OnlyEnds, FlushLog;
    SecondTables(d, c1, cfg.pageSize);
    var c := Analysed(cfg, c1.hist);
    assert c.files == c1.files && c.wal == c1.wal && c.master == c1.master;
    EndsUpd(d.wal, c.wal, Last(d.wal).lsn, k);
    LongerLog(d.wal, c.wal, Last(d.wal).lsn);
    RestartTight(cfg, c1.hist);
    PresentFiles(c1, c, d.wal, c.wal);
    RedoAllAgain(c, c.wal, c.wal, k);
    RestartRecorded(cfg, c1.hist);
    RedoRecorded(c, c.wal);
    var c2 := RedoAll(c, c.wal);
    UndoNobody(c2, c.wal);
    CloseAllPages(c2, ys);
    FlushKeepsPages(CloseAll(c2, ys));
  }

  lemma LongerLog(wal: seq<Rec>, log: seq<Rec>, floor: int)
    requires OnlyEnds(wal, log, floor) && wal != []
    ensures log != []
  {
  }

  lemma RestartTight(cfg: Config, hist: seq<Durable>)
    requires hist != []
    ensures Tight(Analysed(cfg, hist)) && Analysed(cfg, hist).cfg == cfg
  {
    hide Analyse;
  }

  lemma FlushKeepsPages(c: Core)
    ensures FlushLog(c).files == c.files && FlushLog(c).numPages == c.numPages
  {
  }

  // ---------------------------------------------------------------- which bytes change

  /** Last update that redo applies and that covers byte b; |us| if there is none. */
  function {:induction false} LastApplied(us: seq<Rec>, rec: nat, p: Bytes, b: nat): (j: nat)
    requires |p| >= HEADER_SIZE
    ensures j <= |us|
    ensures j < |us| ==> Covers(us[j], b) && Applied(us[j], rec, Again(us[..j], rec, p))
    ensures forall i :: 0 <= i < |us| && (i > j || j == |us|) && Covers(us[i], b) ==> !Applied(us[i], rec, Again(us[..i], rec, p))
  {
    if us == [] then 0
    else
      var j := LastApplied(Front(us), rec, p, b);
      assert forall i :: 0 <= i < |us| - 1 ==> Front(us)[i] == us[i] && Front(us)[..i] == us[..i];
      assert us[..|us| - 1] == Front(us);
      if Covers(Last(us), b) && Applied(Last(us), rec, Again(Front(us), rec, p)) then |us| - 1
      else if j < |us| - 1 then j
      else |us|
  }

  function AfterByte(u: Rec, b: nat): byte
    requires Covers(u, b)
  {
    u.body.after[b - u.body.off]
  }

  lemma {:induction false} AgainByte(us: seq<Rec>, rec: nat, p: Bytes, b: nat)
    requires |p| >= HEADER_SIZE && b < |p|
    ensures var j := LastApplied(us, rec, p, b);
            Again(us, rec, p)[b] == if j < |us| then AfterByte(us[j], b) else p[b]
  {
    hide PageLsn, Applied;
    if us != [] {
      AgainByte(Front(us), rec, p, b);
    }
  }

  /** What the restart makes of a byte: it keeps it exactly when redo applies no update over it, or the
      last one that it does writes the value the first recovery had left. */
  lemma SecondRecoveryByte(cfg: Config, hist: seq<Durable>, xs: seq<int>, ys: seq<int>, k: PageKey, b: nat)
    requires AllCrashOk(cfg, hist) && b < cfg.pageSize
    ensures Recover(cfg, hist, xs).hist != []
    ensures var d, c1 := Last(hist), Recover(cfg, hist, xs);
            var us, dpt := Upd(d.wal, k), Analyse(d.wal, d.master).dpt;
            var p, q := DiskPage(c1.files, cfg.pageSize, k), DiskPage(Recover(cfg, c1.hist, ys).files, cfg.pageSize, k);
            && |p| == |q| == cfg.pageSize
            && (q[b] == p[b] <==>
                  k !in dpt || var j := LastApplied(us, dpt[k], p, b); j == |us| || AfterByte(us[j], b) == p[b])
  {
    hide Analyse, CrashInv, DiskPage, RedonePage, Again, Recover, UndoPage, LastApplied;
    SecondRecoveryPage(cfg, hist, xs, ys, k);
    var d := Last(hist);
    var dpt := Analyse(d.wal, d.master).dpt;
    if k in dpt {
      AgainByte(Upd(d.wal, k), dpt[k], DiskPage(Recover(cfg, hist, xs).files, cfg.pageSize, k), b);
    }
  }

  lemma LaterLsn(log: seq<Rec>, k: PageKey, i: nat, j: nat, ps: nat)
    requires ps >= HEADER_SIZE && LogInv(log, ps) && i <= j < |Upd(log, k)|
    ensures Upd(log, k)[i].lsn <= Upd(log, k)[j].lsn
  {
    hide LogInv;
    if i < j {
      UpdLsnsIncrease(log, k, i, j, ps);
    }
  }

  /** Crash atomicity after two restarts: where the second redo applied an update over the byte, the byte is
      the winners' exactly when that update wrote it so; elsewhere exactly when the first recovery restored it. */
  lemma SecondAtomicByte(cfg: Config, hist: seq<Durable>, xs: seq<int>, ys: seq<int>, k: PageKey, b: nat)
    requires AllCrashOk(cfg, hist) && b < cfg.pageSize
    ensures Recover(cfg, hist, xs).hist != []
    ensures var d, c1 := Last(hist), Recover(cfg, hist, xs);
            var us, dpt := Upd(d.wal, k), Analyse(d.wal, d.master).dpt;
            var p, q := DiskPage(c1.files, cfg.pageSize, k), DiskPage(Recover(cfg, c1.hist, ys).files, cfg.pageSize, k);
            var w := WinnersOnly(us, Losers(d.wal), Zeros(cfg.pageSize))[b];
            && |p| == |q| == cfg.pageSize
            && (q[b] == w <==>
                  if k in dpt && LastApplied(us, dpt[k], p, b) < |us| then AfterByte(us[LastApplied(us, dpt[k], p, b)], b) == w
                  else Restored(d, cfg.pageSize, k, b))
  {
    hide Analyse, CrashInv, DiskPage, RedonePage, Again, Recover, UndoPage, LastApplied, WinnersOnly, Restored, AfterByte;
    SecondRecoveryPage(cfg, hist, xs, ys, k);
    CrashAtomicity(cfg, hist, xs, k, b);
    var d := Last(hist);
    var dpt := Analyse(d.wal, d.master).dpt;
    if k in dpt {
      AgainByte(Upd(d.wal, k), dpt[k], DiskPage(Recover(cfg, hist, xs).files, cfg.pageSize, k), b);
    }
  }

  /** Redo over a page that lacks exactly the last updates of its history brings all of them back. */
  lemma {:induction false} AgainTail(us: seq<Rec>, rec: nat, m: nat, i: nat, log: seq<Rec>, k: PageKey, ps: nat)
    requires ps >= HEADER_SIZE && LogInv(log, ps) && us == Upd(log, k) && m < |us| && i <= |us|
    requires rec <= us[m].lsn && us[m].lsn > 0
    ensures Again(us[..i], rec, Replay(us[..m], Zeros(ps))) == Replay(us[..Max(i, m)], Zeros(ps))
  {
    hide LogInv, Replay, Upd, Applied, Patch;
    if i == 0 {
      assert us[..0] == [];
    } else {
      AgainTail(us, rec, m, i - 1, log, k, ps);
      assert Front(us[..i]) == us[..i - 1] && Last(us[..i]) == us[i - 1];
      TailApplied(us, rec, m, i - 1, log, k, ps);
      if i > m {
        ReplaySnoc(us[..i - 1], us[i - 1], Zeros(ps));
        assert us[..i] == us[..i - 1] + [us[i - 1]];
      }
    }
  }

  /** With the first m updates, or more, in the page, redo applies an update exactly when the page lacks it. */
  lemma TailApplied(us: seq<Rec>, rec: nat, m: nat, i: nat, log: seq<Rec>, k: PageKey, ps: nat)
    requires ps >= HEADER_SIZE && LogInv(log, ps) && us == Upd(log, k) && m < |us| && i < |us|
    requires rec <= us[m].lsn && us[m].lsn > 0
    ensures Applied(us[i], rec, Replay(us[..Max(i, m)], Zeros(ps))) <==> i >= m
  {
    hide LogInv, PageLsn, Replay, Upd;
    ReplayLsn(log, k, Max(i, m), ps);
    if i < m {
      LaterLsn(log, k, i, m - 1, ps);
    } else {
      LaterLsn(log, k, m, i, ps);
      if i > 0 {
        UpdLsnsIncrease(log, k, i - 1, i, ps);
      }
    }
  }

  /** So where the losers' updates end a page's history, and the dirty page table lists the page from the
      first of them or earlier, the first recovery removes them all and the next restart brings them all back. */
  lemma LosersReturn(cfg: Config, hist: seq<Durable>, xs: seq<int>, ys: seq<int>, k: PageKey, m: nat)
    requires AllCrashOk(cfg, hist) && !LostZero(Last(hist).wal, Last(hist).files, cfg.pageSize)
    requires var d := Last(hist); var us, dpt := Upd(d.wal, k), Analyse(d.wal, d.master).dpt;
             && m < |us| && us[m].lsn > 0 && k in dpt && dpt[k] <= us[m].lsn
             && forall j :: 0 <= j < |us| ==> (us[j].xid in Losers(d.wal) <==> m <= j)
    ensures Recover(cfg, hist, xs).hist != []
    ensures var c1 := Recover(cfg, hist, xs); var us := Upd(Last(hist).wal, k);
            var p, q := DiskPage(c1.files, cfg.pageSize, k), DiskPage(Recover(cfg, c1.hist, ys).files, cfg.pageSize, k);
            && p == Replay(us[..m], Zeros(cfg.pageSize)) && q == Replay(us, Zeros(cfg.pageSize)) && p != q
  {
    hide Analyse, CrashInv, DiskPage, Again, Recover, UndoPage, LostZero, LogInv, Replay, Upd, Losers, RedonePage;
    var d, ps := Last(hist), cfg.pageSize;
    SecondRecoveryPage(cfg, hist, xs, ys, k);
    WholePage(d, ps, k);
    assert CrashInv(d, ps);
    WalInv(d, ps);
    TailUndone(d.wal, k, m, ps);
    TailAgain(d.wal, k, Analyse(d.wal, d.master).dpt[k], m, ps);
  }

  lemma TailUndone(log: seq<Rec>, k: PageKey, m: nat, ps: nat)
    requires ps >= HEADER_SIZE && LogInv(log, ps) && m <= |Upd(log, k)|
    requires forall j :: 0 <= j < |Upd(log, k)| ==> (Upd(log, k)[j].xid in Losers(log) <==> m <= j)
    ensures UndoPage(Upd(log, k), Losers(log), Replay(Upd(log, k), Zeros(ps))) == Replay(Upd(log, k)[..m], Zeros(ps))
  {
    hide LogInv, Replay, Upd, Losers, UndoPage, Consistent;
    HistoryConsistent(log, k, ps);
    UndoTail(Upd(log, k), Losers(log), m, ps);
  }

  lemma TailAgain(log: seq<Rec>, k: PageKey, rec: nat, m: nat, ps: nat)
    requires ps >= HEADER_SIZE && LogInv(log, ps) && m < |Upd(log, k)|
    requires rec <= Upd(log, k)[m].lsn && Upd(log, k)[m].lsn > 0
    ensures var us, z := Upd(log, k), Zeros(ps);
            Again(us, rec, Replay(us[..m], z)) == Replay(us, z) && Replay(us[..m], z) != Replay(us, z)
  {
    hide LogInv, Replay, Upd, Again, PageLsn;
    var us := Upd(log, k);
    assert us[..|us|] == us;
    AgainTail(us, rec, m, |us|, log, k, ps);
    ReplayLsn(log, k, m, ps);
    ReplayLsn(log, k, |us|, ps);
    LaterLsn(log, k, m, |us| - 1, ps);
    if m > 0 {
      UpdLsnsIncrease(log, k, m - 1, |us| - 1, ps);
    }
  }

  // ---------------------------------------------------------------- a loser that comes back

  /** A log without checkpoints, and no page written yet. */
  lemma NothingOnDisk(wal: seq<Rec>, master: int, ps: nat)
    requires ps >= HEADER_SIZE && LogInv(wal, ps) && forall i :: 0 <= i < |wal| ==> !wal[i].body.EndCkpt?
    ensures CrashInv(Durable(wal, map[], master), ps)
  {
    hide LogInv, Upd;
    forall k ensures PageOk(wal, map[], ps, k) {
      assert Upd(wal, k)[..0] == [];
      assert HoldsFirst(wal, map[], ps, k, 0);
    }
  }

  /** One page, one durable update, no commit. */
  function LoserRec(): Rec {
    Rec(1, NO_LSN, 0, Update(PageKey("f", 0), 22, [0, 0], [7, 1]))
  }

  function LoserCrash(): Durable {
    Durable([LoserRec()], map[], NO_LSN)
  }

  lemma FirstAnalysis()
    ensures Analyse([LoserRec()], NO_LSN) == Tables(map[0 := TxEntry(Active, 1)], map[PageKey("f", 0) := 1])
  {
    var r := LoserRec();
    assert Front([r]) == [] && Last([r]) == r;
    assert Scan(Tables(map[], map[]), [], NO_LSN) == Tables(map[], map[]);
  }

  function LoserPage(ps: nat): Bytes {
    Patch(Zeros(ps), LoserRec())
  }

  lemma LoserPageIs(ps: nat)
    requires ps >= HEADER_SIZE
    ensures |LoserPage(ps)| == ps && LoserPage(ps)[22] == 7 && PageLsn(Zeros(ps)) == 0
  {
    ZeroPageLsn(ps);
  }

  /** One loser, one page, one update: recovery undoes it, and the next restart, with no losers left, redoes
      it and leaves it there. */
  lemma LoserReturns(cfg: Config)
    requires cfg.pageSize >= HEADER_SIZE
    ensures AllCrashOk(cfg, [LoserCrash()]) && Losers(LoserCrash().wal) == {0}
    ensures Recover(cfg, [LoserCrash()], []).hist != []
    ensures var ps, k := cfg.pageSize, PageKey("f", 0);
            var c1 := Recover(cfg, [LoserCrash()], []);
            var c2 := Recover(cfg, c1.hist, []);
            && DiskPage(c1.files, ps, k) == Zeros(ps)
            && UndoLosers(Analysed(cfg, c1.hist).tx) == {}
            && DiskPage(c2.files, ps, k) == LoserPage(ps) != Zeros(ps)
  {
    var ps, k, r := cfg.pageSize, PageKey("f", 0), LoserRec();
    LoserCrashOk(ps);
    FirstAnalysis();
    LoserPageIs(ps);
    hide Recover, Analyse, DiskPage, LoserPage, LogInv, CrashInv;
    WalInv(LoserCrash(), ps);
    FirstLeaves(cfg, [LoserCrash()], []);
    SecondTables(LoserCrash(), Recover(cfg, [LoserCrash()], []), ps);
    LosersReturn(cfg, [LoserCrash()], [], [], k, 0);
  }

  lemma LoserLogged(ps: nat)
    requires ps >= HEADER_SIZE
    ensures Logged([], LoserRec(), ps)
  {
    var r, z := LoserRec(), Zeros(ps);
    LoserPageIs(ps);
    Snoc([], r);
    assert Replay([], z) == z && Replay([] + [r], z) == LoserPage(ps);
    assert z[22..24] == [0, 0];
    var p := LoserPage(ps)[LSN_OFFSET..LSN_OFFSET + LSN_SIZE];
    assert p[0] == 1 && p[1] == 0;
    LowTwo(p);
  }

  lemma LoserCrashOk(ps: nat)
    requires ps >= HEADER_SIZE
    ensures CrashInv(LoserCrash(), ps) && Losers(LoserCrash().wal) == {0}
  {
    hide Logged;
    var r := LoserRec();
    LoserLogged(ps);
    Snoc([], r);
    assert [] + [r] == [r];
    assert Upd([], PageKey("f", 0)) == [] && LastLsn([], 0) == NO_LSN;
    assert Updaters([]) == {} && CommittedIn([]) == {} && EndedIn([]) == {};
    assert RecOk([], r, ps) && LogInv([], ps);
    NothingOnDisk([r], NO_LSN, ps);
  }

  lemma LowTwo(bs: Bytes)
    requires |bs| >= 2 && forall i :: 2 <= i < |bs| ==> bs[i] == 0
    ensures FromLe(bs) == (bs[0] as int) + 256 * (bs[1] as int)
  {
    assert bs[1..][1..] == bs[2..];
    FromLeZeros(bs[2..]);
  }
}
