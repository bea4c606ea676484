/** The pageLSN that recovery leaves on a page, exactly: undo restores it byte by byte, so that it can mix the
    LSNs of several updates. When it is not below the next LSN, and what redo then makes of the updates logged later. */
module PageLsns {
  import opened Pages
  import opened Log
  import opened Engine
  import opened CoreInvariant
  import opened PoolInvariant
  import opened Analysis
  import opened Redo
  import opened Undo
  import opened Recovery
  import opened LostUpdate
  import opened FullRecovery
  import opened AfterRecovery
  import opened SecondRestart

  // ---------------------------------------------------------------- the mixed pageLSN

  /** LSN of the update before position j of a history; a page without updates carries 0. */
  function LsnBefore(us: seq<Rec>, j: nat): nat
    requires j <= |us|
  {
    if j == 0 then 0 else us[j - 1].lsn
  }

  /** Each byte of the pageLSN comes from the update before the first one by which a loser altered that byte. */
  function MixedBytes(us: seq<Rec>, losers: set<int>): (bs: Bytes)
    ensures |bs| == LSN_SIZE
  {
    seq(LSN_SIZE, i requires 0 <= i < LSN_SIZE =>
      LeBytes(LsnBefore(us, FirstLoser(us, losers, LSN_OFFSET + i)), LSN_SIZE)[i])
  }

  function MixedLsn(us: seq<Rec>, losers: set<int>): nat {
    FromLe(MixedBytes(us, losers))
  }

  lemma {:induction false} LeBytesOf(bs: Bytes)
    ensures LeBytes(FromLe(bs), |bs|) == bs
  {
    if bs != [] {
      LeBytesOf(bs[1..]);
      assert FromLe(bs) % 256 == bs[0] && FromLe(bs) / 256 == FromLe(bs[1..]);
    }
  }

  lemma PageLsnByte(p: Bytes, i: nat)
    requires |p| >= HEADER_SIZE && i < LSN_SIZE
    ensures p[LSN_OFFSET + i] == LeBytes(PageLsn(p), LSN_SIZE)[i]
  {
    hide LeBytes, FromLe;
    LeBytesOf(p[LSN_OFFSET..LSN_OFFSET + LSN_SIZE]);
  }

  /** The pageLSN of the page redo leaves, the zero-LSN loss included. */
  lemma RedoneLsn(d: Durable, k: PageKey, ps: nat)
    requires ps >= HEADER_SIZE && LogInv(d.wal, ps)
    ensures PageLsn(RedonePage(d, ps, k)) == LsnBefore(Upd(d.wal, k), |Upd(d.wal, k)|)
  {
    hide LogInv, Replay, PageLsn, LostZero, Upd;
    var us := Upd(d.wal, k);
    ReplayLsn(d.wal, k, |us|, ps);
    assert us[..|us|] == us;
    if Loses(d, ps, k) && us != [] {
      assert us[1..|us|] == us[1..];
      LostFirst(d, k, ps);
      BehindLsn(d.wal, k, |us|, ps);
    }
  }

  lemma LostFirst(d: Durable, k: PageKey, ps: nat)
    requires Loses(d, ps, k)
    ensures Upd(d.wal, k) != [] && Upd(d.wal, k)[0].lsn == 0
  {
    FirstIsZero(d.wal, k);
  }

  lemma UndoneLsnByte(d: Durable, k: PageKey, i: nat, ps: nat)
    requires ps >= HEADER_SIZE && LogInv(d.wal, ps) && i < LSN_SIZE
    ensures var us, losers := Upd(d.wal, k), Losers(d.wal);
            UndoPage(us, losers, RedonePage(d, ps, k))[LSN_OFFSET + i] == MixedBytes(us, losers)[i]
  {
    hide LogInv, Replay, PageLsn, Upd, Losers, RedonePage, UndoPage, LeBytes, Consistent;
    var us, losers := Upd(d.wal, k), Losers(d.wal);
    var b := LSN_OFFSET + i;
    var j := FirstLoser(us, losers, b);
    assert MixedBytes(us, losers)[i] == LeBytes(LsnBefore(us, j), LSN_SIZE)[i];
    HistoryConsistent(d.wal, k, ps);
    UndoByte(us, losers, RedonePage(d, ps, k), b, ps);
    if j < |us| {
      ReplayLsn(d.wal, k, j, ps);
      PageLsnByte(Replay(us[..j], Zeros(ps)), i);
    } else {
      RedoneLsn(d, k, ps);
      PageLsnByte(RedonePage(d, ps, k), i);
    }
  }

  lemma UndoneLsn(d: Durable, k: PageKey, ps: nat)
    requires ps >= HEADER_SIZE && LogInv(d.wal, ps)
    ensures var us, losers := Upd(d.wal, k), Losers(d.wal);
            PageLsn(UndoPage(us, losers, RedonePage(d, ps, k))) == MixedLsn(us, losers)
  {
    hide LogInv, Upd, Losers, RedonePage, UndoPage, MixedBytes;
    var us, losers := Upd(d.wal, k), Losers(d.wal);
    var p := UndoPage(us, losers, RedonePage(d, ps, k));
    forall i | 0 <= i < LSN_SIZE ensures p[LSN_OFFSET + i] == MixedBytes(us, losers)[i] {
      UndoneLsnByte(d, k, i, ps);
    }
    assert p[LSN_OFFSET..LSN_OFFSET + LSN_SIZE] == MixedBytes(us, losers);
  }

  /** The pageLSN every recovery leaves, from the log alone. */
  lemma RecoveredLsn(cfg: Config, hist: seq<Durable>, xs: seq<int>, k: PageKey)
    requires AllCrashOk(cfg, hist)
    ensures var p := DiskPage(Recover(cfg, hist, xs).files, cfg.pageSize, k);
            |p| == cfg.pageSize && PageLsn(p) == MixedLsn(Upd(Last(hist).wal, k), Losers(Last(hist).wal))
  {
    hide Recover, DiskPage, CrashInv, RedonePage, UndoPage, MixedLsn, LogInv, PageLsn;
    RecoveredAlways(cfg, hist, xs, k);
    assert CrashInv(Last(hist), cfg.pageSize);
    WalInv(Last(hist), cfg.pageSize);
    UndoneLsn(Last(hist), k, cfg.pageSize);
  }

  // ---------------------------------------------------------------- the next LSN

  /** n end records later: the next LSN is n higher, and still follows the last record. */
  predicate Counted(c: Core, c': Core, n: nat) {
    && c'.nextLsn == c.nextLsn + n && c'.nextXid == c.nextXid && c'.ops == c.ops && c'.cfg == c.cfg
    && FullLog(c) <= FullLog(c')
    && (FollowsLog(c) ==> FollowsLog(c'))
  }

  predicate FollowsLog(c: Core) {
    FullLog(c) != [] && Last(FullLog(c)).lsn + 1 == c.nextLsn
  }

  lemma CountedThen(c: Core, c1: Core, c2: Core, n: nat, m: nat)
    requires Counted(c, c1, n) && Counted(c1, c2, m)
    ensures Counted(c, c2, n + m)
  {
    hide FullLog, FollowsLog;
  }

  lemma CloseTxCounted(c: Core, x: int)
    ensures Counted(c, CloseTx(c, x), 1)
  {
    hide FlushLog;
    var r := MakeRec(c, c.nextLsn, x, End);
    var c1 := Buffered(c.(nextLsn := c.nextLsn + 1), c.nextLsn, x, End);
    assert FullLog(c1) == FullLog(c) + [r];
    FlushCounted(c1);
    assert FullLog(CloseTx(c, x)) == FullLog(c) + [r];
  }

  lemma FlushCounted(c: Core)
    ensures Counted(c, FlushLog(c), 0) && FullLog(FlushLog(c)) == FullLog(c) && FlushLog(c).logBuf == []
  {
  }

  lemma NothingBuffered(c: Core)
    requires c.logBuf == []
    ensures FullLog(c) == c.wal
  {
  }

  lemma UndoRecCounted(c: Core, r: Rec, losers: set<int>)
    ensures Counted(c, UndoRec(c, r, losers), if FirstOf(r, losers) then 1 else 0)
  {
    hide CloseTx, DiskWrite, Unpatch, FollowsLog;
    if r.body.Update? && r.xid in losers {
      var c1 := RestorePage(c, r);
      RestoreCounted(c, r);
      if r.prev == NO_LSN {
        CloseTxCounted(c1, r.xid);
        CountedThen(c, c1, CloseTx(c1, r.xid), 0, 1);
      }
    }
  }

  lemma RestoreCounted(c: Core, r: Rec)
    requires r.body.Update?
    ensures Counted(c, RestorePage(c, r), 0)
  {
    hide DiskWrite, Unpatch;
  }

  /** How many records open a loser's chain. */
  function Firsts(recs: seq<Rec>, losers: set<int>): nat {
    if recs == [] then 0 else Firsts(Front(recs), losers) + if FirstOf(Last(recs), losers) then 1 else 0
  }

  lemma {:induction false} UndoAllCounted(c: Core, recs: seq<Rec>, losers: set<int>)
    ensures Counted(c, UndoAll(c, recs, losers), Firsts(recs, losers))
    decreases |recs|
  {
    hide UndoRec, FullLog, FollowsLog, FirstOf, Counted;
    if recs == [] {
      CountedSelf(c);
    } else {
      var c1 := UndoRec(c, Last(recs), losers);
      UndoRecCounted(c, Last(recs), losers);
      UndoAllCounted(c1, Front(recs), losers);
      CountedThen(c, c1, UndoAll(c, recs, losers), if FirstOf(Last(recs), losers) then 1 else 0, Firsts(Front(recs), losers));
    }
  }

  lemma CountedSelf(c: Core)
    ensures Counted(c, c, 0)
  {
  }

  lemma {:induction false} CloseAllCounted(c: Core, xs: seq<int>)
    ensures Counted(c, CloseAll(c, xs), |xs|)
    decreases |xs|
  {
    hide CloseTx, Counted;
    if xs == [] {
      CountedSelf(c);
    } else {
      CloseTxCounted(c, xs[0]);
      CloseAllCounted(CloseTx(c, xs[0]), xs[1..]);
      CountedThen(c, CloseTx(c, xs[0]), CloseAll(c, xs), 1, |xs| - 1);
    }
  }

  /** A transaction's chain is opened by its first update. */
  lemma {:induction false} FirstsOnce(log: seq<Rec>, losers: set<int>, ps: nat)
    requires ps >= HEADER_SIZE && LogInv(log, ps) && losers !! CommittedIn(log)
    ensures Firsts(log, losers) == |Updaters(log) * losers|
  {
    hide RecOk, LogInv, Updaters, CommittedIn, Firsts, FirstOf;
    LastViews(log, losers, ps);
    if log != [] {
      var front, r := Front(log), Last(log);
      FirstsOnce(front, losers, ps);
      if r.body.Update? {
        OpensChain(front, r, ps);
        OneMoreLoser(Updaters(front), losers, r.xid);
      }
    }
  }

  lemma LastViews(log: seq<Rec>, losers: set<int>, ps: nat)
    requires ps >= HEADER_SIZE && LogInv(log, ps)
    ensures log == [] ==> Updaters(log) == {} && Firsts(log, losers) == 0
    ensures log != [] ==>
              var front, r := Front(log), Last(log);
              && LogInv(front, ps) && RecOk(front, r, ps) && CommittedIn(front) <= CommittedIn(log)
              && Updaters(log) == (if r.body.Update? then Updaters(front) + {r.xid} else Updaters(front))
              && Firsts(log, losers) == Firsts(front, losers)
                   + if r.body.Update? && r.xid in losers && r.prev == NO_LSN then 1 else 0
  {
    hide RecOk;
  }

  lemma OneMoreLoser(a: set<int>, losers: set<int>, x: int)
    ensures |(a + {x}) * losers| == |a * losers| + if x in losers && x !in a then 1 else 0
  {
    if x in losers && x !in a {
      assert (a + {x}) * losers == a * losers + {x};
    } else {
      assert (a + {x}) * losers == a * losers;
    }
  }

  lemma OpensChain(log: seq<Rec>, r: Rec, ps: nat)
    requires ps >= HEADER_SIZE && LogInv(log, ps) && RecOk(log, r, ps) && r.body.Update?
    ensures r.prev == NO_LSN <==> r.xid !in Updaters(log)
  {
    hide Logged, LogInv;
    HasRecords(log, r.xid, ps);
  }

  /** The next LSN after a recovery that also writes n closing end records. */
  function NextLsnAfter(wal: seq<Rec>, n: nat): int {
    if wal == [] then 0 else Last(wal).lsn + 1 + |Losers(wal)| + n
  }

  lemma RecoverCounted(cfg: Config, hist: seq<Durable>, xs: seq<int>)
    requires AllCrashOk(cfg, hist)
    ensures var c1 := Recover(cfg, hist, xs);
            && c1.nextLsn == NextLsnAfter(Last(hist).wal, |xs|)
            && c1.logBuf == [] && (c1.wal == [] ==> c1.nextLsn == 0) && (c1.wal != [] ==> FollowsLog(c1))
            && c1.cfg == cfg && c1.ops == 0 && c1.nextXid == MaxXid(Last(hist).wal) + 1
  {
    hide Analyse, RedoAll, CrashInv, UndoAll, CloseAll, FlushLog, LogInv, FullLog, FollowsLog, Counted;
    var wal, ps := Last(hist).wal, cfg.pageSize;
    assert CrashInv(Last(hist), ps);
    WalInv(Last(hist), ps);
    if wal != [] {
      var c := Analysed(cfg, hist);
      AnalysisTx(wal, c.master, ps);
      UndoLosersAre(c.tx, wal, ps);
      RestartRecorded(cfg, hist);
      RedoRecorded(c, wal);
      var c1 := RedoAll(c, wal);
      ClosedCounted(c1, wal, Losers(wal), xs);
      FirstsOnce(wal, Losers(wal), ps);
      assert Updaters(wal) * Losers(wal) == Losers(wal);
      RestartFollows(cfg, hist, c1);
      Follows(c1, Recover(cfg, hist, xs), Firsts(wal, Losers(wal)) + |xs|);
    }
  }

  lemma ClosedCounted(c: Core, wal: seq<Rec>, losers: set<int>, xs: seq<int>)
    ensures var c' := FlushLog(CloseAll(UndoAll(c, wal, losers), xs));
            Counted(c, c', Firsts(wal, losers) + |xs|) && c'.logBuf == []
  {
    hide UndoAll, CloseAll, FlushLog, Counted, FullLog;
    var c1 := UndoAll(c, wal, losers);
    var c2 := CloseAll(c1, xs);
    UndoAllCounted(c, wal, losers);
    CloseAllCounted(c1, xs);
    FlushCounted(c2);
    CountedThen(c, c1, c2, Firsts(wal, losers), |xs|);
    CountedThen(c, c2, FlushLog(c2), Firsts(wal, losers) + |xs|, 0);
  }

  lemma RestartFollows(cfg: Config, hist: seq<Durable>, c: Core)
    requires hist != [] && Last(hist).wal != [] && Rewrites(Analysed(cfg, hist), c)
    ensures FollowsLog(c) && c.nextLsn == Last(Last(hist).wal).lsn + 1 && c.wal == Last(hist).wal
    ensures c.cfg == cfg && c.ops == 0 && c.nextXid == MaxXid(Last(hist).wal) + 1
  {
    hide Analyse;
    assert FullLog(c) == c.wal;
  }

  lemma Follows(c: Core, c': Core, n: nat)
    requires Counted(c, c', n) && FollowsLog(c) && c'.logBuf == []
    ensures FollowsLog(c') && c'.wal != [] && c'.nextLsn == c.nextLsn + n
    ensures c'.cfg == c.cfg && c'.ops == c.ops && c'.nextXid == c.nextXid
  {
  }

  /** The pageLSN is below the next LSN exactly when the mixed LSN of the page's history is: a condition on the
      log before the recovery. A start after the recovery goes on from the same LSN. */
  lemma LsnsExceed(cfg: Config, hist: seq<Durable>, xs: seq<int>, k: PageKey)
    requires AllCrashOk(cfg, hist)
    ensures Recover(cfg, hist, xs).hist != []
    ensures var wal, c1 := Last(hist).wal, Recover(cfg, hist, xs); var p := DiskPage(c1.files, cfg.pageSize, k);
            && |p| == cfg.pageSize
            && (PageLsn(p) < c1.nextLsn <==> MixedLsn(Upd(wal, k), Losers(wal)) < NextLsnAfter(wal, |xs|))
            && Restart(cfg, c1.hist).nextLsn == c1.nextLsn
  {
    hide Recover, DiskPage, CrashInv, MixedLsn, PageLsn, FollowsLog;
    RecoveredLsn(cfg, hist, xs, k);
    RecoverCounted(cfg, hist, xs);
    RecoverRecorded(cfg, hist, xs);
    RestartContinues(cfg, Recover(cfg, hist, xs));
  }

  lemma RestartContinues(cfg: Config, c: Core)
    requires Recorded(c) && c.logBuf == [] && (c.wal == [] ==> c.nextLsn == 0) && (c.wal != [] ==> FollowsLog(c))
    ensures Restart(cfg, c.hist).nextLsn == c.nextLsn
  {
    assert FullLog(c) == c.wal;
  }

  lemma RecoverRecorded(cfg: Config, hist: seq<Durable>, xs: seq<int>)
    requires AllCrashOk(cfg, hist)
    ensures Recorded(Recover(cfg, hist, xs))
  {
    hide Recover, CrashInv, OnlyEnds, EndsIn, Present;
    if Last(hist).wal == [] {
      EmptyRecorded(cfg, hist, xs);
    } else {
      FirstLeaves(cfg, hist, xs);
    }
  }

  lemma EmptyRecorded(cfg: Config, hist: seq<Durable>, xs: seq<int>)
    requires hist != [] && Last(hist).wal == []
    ensures Recorded(Recover(cfg, hist, xs)) && Recover(cfg, hist, xs).wal == []
  {
  }

  // ---------------------------------------------------------------- redo of one page, from any state

  /** The page is in its file. */
  ghost predicate InPlace(c: Core, k: PageKey) {
    && c.files.Keys == c.numPages.Keys && c.cfg.pageSize >= HEADER_SIZE
    && ValidFileId(k.file) && OnDisk(c.files, k) && k.pid < NumPages(c, k.file)
    && |DiskPage(c.files, c.cfg.pageSize, k)| == c.cfg.pageSize
  }

  lemma RedoKeyRec(c: Core, r: Rec, k: PageKey)
    requires InPlace(c, k)
    ensures var c' := RedoRec(c, r); var p := DiskPage(c.files, c.cfg.pageSize, k);
            && InPlace(c', k) && c'.cfg == c.cfg && c'.dpt == c.dpt
            && DiskPage(c'.files, c.cfg.pageSize, k)
               == if r.body.Update? && r.body.key == k && k in c.dpt && Applied(r, c.dpt[k], p) then Patch(p, r) else p
  {
    hide PageLsn, Patch, DiskPage, RedoRec;
    if r.body.Update? && r.body.key == k {
      RedoOrNot(c, r, k);
      RewrittenInPlace(c, k, Patch(DiskPage(c.files, c.cfg.pageSize, k), r));
    } else {
      KeepsRedo(c, k, r);
    }
  }

  lemma RedoLeaves(c: Core, k: PageKey, r: Rec)
    requires InPlace(c, k) && r.body.Update? && r.body.key == k
    requires k in c.dpt ==> !Applied(r, c.dpt[k], DiskPage(c.files, c.cfg.pageSize, k))
    ensures RedoRec(c, r) == c
  {
    hide PageLsn, ApplyRec, EnsurePage;
  }

  lemma RewrittenInPlace(c: Core, k: PageKey, data: Bytes)
    requires InPlace(c, k) && |data| == c.cfg.pageSize
    ensures var c' := DiskWrite(c, k, data).0;
            InPlace(c', k) && c'.cfg == c.cfg && c'.dpt == c.dpt && DiskPage(c'.files, c.cfg.pageSize, k) == data
  {
    PutPageEffect(c.files, c.cfg.pageSize, k, data, k);
    assert DiskWrite(c, k, data).0 == RawWrite(c, k, data);
  }

  /** What redo makes of one page depends on that page and its updates alone: `SecondRestart.Again`. */
  lemma {:induction false} RedoKeyAgain(c: Core, recs: seq<Rec>, k: PageKey)
    requires InPlace(c, k)
    ensures var c' := RedoAll(c, recs); var p := DiskPage(c.files, c.cfg.pageSize, k);
            && InPlace(c', k) && c'.cfg == c.cfg && c'.dpt == c.dpt
            && DiskPage(c'.files, c.cfg.pageSize, k) == if k in c.dpt then Again(Upd(recs, k), c.dpt[k], p) else p
  {
    hide RedoRec, DiskPage, InPlace, Applied, Patch;
    if recs != [] {
      RedoKeyAgain(c, Front(recs), k);
      RedoKeyRec(RedoAll(c, Front(recs)), Last(recs), k);
      if Last(recs).body.Update? && Last(recs).body.key == k {
        assert Front(Upd(recs, k)) == Upd(Front(recs), k);
      }
    }
  }

  // ---------------------------------------------------------------- updates logged after a recovery

  /** Updates logged one after the other over page p, each stamping its LSN, as logging does. */
  predicate LoggedOver(p: Bytes, vs: seq<Rec>)
    requires |p| >= HEADER_SIZE
  {
    forall i :: 0 <= i < |vs| ==> PageLsn(Replay(vs[..i + 1], p)) == vs[i].lsn && (i > 0 ==> vs[i - 1].lsn < vs[i].lsn)
  }

  /** Redo passes over exactly the histories whose eligible updates all have an LSN up to the pageLSN. */
  predicate Shielded(us: seq<Rec>, rec: nat, p: Bytes)
    requires |p| >= HEADER_SIZE
  {
    forall i :: 0 <= i < |us| && rec <= us[i].lsn ==> us[i].lsn <= PageLsn(p)
  }

  /** Redo over the page applies no update of the history. */
  predicate AppliesNone(us: seq<Rec>, rec: nat, p: Bytes)
    requires |p| >= HEADER_SIZE
  {
    forall i :: 0 <= i < |us| ==> !Applied(us[i], rec, Again(us[..i], rec, p))
  }

  lemma {:induction false} ShieldedExactly(us: seq<Rec>, rec: nat, p: Bytes)
    requires |p| >= HEADER_SIZE
    ensures AppliesNone(us, rec, p) <==> Shielded(us, rec, p)
    ensures Shielded(us, rec, p) ==> Again(us, rec, p) == p
  {
    hide AppliesNone, Shielded, Applied, Again;
    if us == [] {
      NothingApplied(rec, p);
    } else {
      var front, u := Front(us), Last(us);
      assert us == front + [u];
      ShieldedExactly(front, rec, p);
      AppliesNoneSnoc(front, u, rec, p);
      ShieldedSnoc(front, u, rec, p);
      AgainSnoc(front, u, rec, p);
    }
  }

  lemma NothingApplied(rec: nat, p: Bytes)
    requires |p| >= HEADER_SIZE
    ensures AppliesNone([], rec, p) && Shielded([], rec, p) && Again([], rec, p) == p
  {
  }

  lemma AppliesNoneSnoc(us: seq<Rec>, u: Rec, rec: nat, p: Bytes)
    requires |p| >= HEADER_SIZE
    ensures AppliesNone(us + [u], rec, p) <==> AppliesNone(us, rec, p) && !Applied(u, rec, Again(us, rec, p))
  {
    hide Applied, Again;
    var all := us + [u];
    assert all[..|us|] == us && all[|us|] == u;
    forall i | 0 <= i < |us| ensures all[..i] == us[..i] && all[i] == us[i] {
    }
    assert AppliesNone(all, rec, p) ==> !Applied(all[|us|], rec, Again(all[..|us|], rec, p));
    forall i | AppliesNone(all, rec, p) && 0 <= i < |us| ensures !Applied(us[i], rec, Again(us[..i], rec, p)) {
      assert !Applied(all[i], rec, Again(all[..i], rec, p));
    }
  }

  lemma ShieldedSnoc(us: seq<Rec>, u: Rec, rec: nat, p: Bytes)
    requires |p| >= HEADER_SIZE
    ensures Shielded(us + [u], rec, p) <==> Shielded(us, rec, p) && !Applied(u, rec, p)
  {
    hide PageLsn;
    var all := us + [u];
    assert all[|us|] == u;
    forall i | Shielded(all, rec, p) && 0 <= i < |us| && rec <= us[i].lsn ensures us[i].lsn <= PageLsn(p) {
      assert all[i] == us[i];
    }
  }

  /** Redo applies the i-th of the later updates. */
  predicate AppliesLater(prior: seq<Rec>, vs: seq<Rec>, rec: nat, p: Bytes, i: nat)
    requires |p| >= HEADER_SIZE && i < |vs|
  {
    Applied(vs[i], rec, Again(prior + vs[..i], rec, p))
  }

  /** Later updates with an LSN up to the pageLSN are passed over, and once the pageLSN is below the first of
      them all are applied. */
  lemma {:induction false} AgainLater(prior: seq<Rec>, vs: seq<Rec>, rec: nat, p: Bytes, i: nat)
    requires |p| >= HEADER_SIZE && LoggedOver(p, vs) && vs != [] && rec <= vs[0].lsn && Shielded(prior, rec, p) && i < |vs|
    ensures vs[i].lsn <= PageLsn(p) ==> !AppliesLater(prior, vs, rec, p, i) && Again(prior + vs[..i + 1], rec, p) == p
    ensures PageLsn(p) < vs[0].lsn ==> AppliesLater(prior, vs, rec, p, i) && Again(prior + vs[..i + 1], rec, p) == Replay(vs[..i + 1], p)
  {
    hide PageLsn, Replay, Patch;
    if i == 0 {
      ShieldedExactly(prior, rec, p);
      assert prior + vs[..0] == prior;
      assert vs[..0] == [];
      ReplayNothing(p);
    } else {
      AgainLater(prior, vs, rec, p, i - 1);
      FirstIsLeast(p, vs, i);
    }
    ReplaySnoc(vs[..i], vs[i], p);
    assert vs[..i + 1] == vs[..i] + [vs[i]];
    AgainSnoc(prior + vs[..i], vs[i], rec, p);
    assert prior + vs[..i + 1] == prior + vs[..i] + [vs[i]];
  }

  lemma AgainSnoc(us: seq<Rec>, u: Rec, rec: nat, p: Bytes)
    requires |p| >= HEADER_SIZE
    ensures var q := Again(us, rec, p); Again(us + [u], rec, p) == if Applied(u, rec, q) then Patch(q, u) else q
  {
    Snoc(us, u);
  }

  lemma {:induction false} FirstIsLeast(p: Bytes, vs: seq<Rec>, i: nat)
    requires |p| >= HEADER_SIZE && LoggedOver(p, vs) && i < |vs|
    ensures vs[0].lsn <= vs[i].lsn && PageLsn(Replay(vs[..i + 1], p)) == vs[i].lsn
    ensures i > 0 ==> vs[i - 1].lsn < vs[i].lsn && PageLsn(Replay(vs[..i], p)) == vs[i - 1].lsn
  {
    hide PageLsn, Replay;
    if i > 0 {
      FirstIsLeast(p, vs, i - 1);
    }
  }

  /** A crash in which page k is still as the recovery had left it, however the log has grown. */
  ghost predicate LeftOnDisk(cfg: Config, c1: Core, d: Durable, k: PageKey) {
    && c1.wal <= d.wal && ValidFileId(k.file) && OnDisk(d.files, k)
    && DiskPage(d.files, cfg.pageSize, k) == DiskPage(c1.files, cfg.pageSize, k)
  }

  /** The updates of the page logged after the recovery. */
  function Later(c1: Core, d: Durable, k: PageKey): seq<Rec>
    requires c1.wal <= d.wal
  {
    Upd(d.wal[|c1.wal|..], k)
  }

  lemma {:induction false} UpdConcat(a: seq<Rec>, b: seq<Rec>, k: PageKey)
    ensures Upd(a + b, k) == Upd(a, k) + Upd(b, k)
    decreases |b|
  {
    if b == [] {
      assert a + b == a;
    } else {
      UpdConcat(a, Front(b), k);
      assert Front(a + b) == a + Front(b) && Last(a + b) == Last(b);
    }
  }

  /** What the next redo makes of a page that is as a recovery left it: redo run once more over it, with the
      updates from before that recovery and those logged later, starting from the mixed pageLSN. */
  lemma NextRedo(cfg: Config, hist: seq<Durable>, xs: seq<int>, next: seq<Durable>, k: PageKey)
    requires AllCrashOk(cfg, hist) && next != [] && LeftOnDisk(cfg, Recover(cfg, hist, xs), Last(next), k)
    ensures var c1, d := Recover(cfg, hist, xs), Last(next); var us, vs := Upd(Last(hist).wal, k), Later(c1, d, k);
            var dpt, p := Analyse(d.wal, d.master).dpt, DiskPage(c1.files, cfg.pageSize, k);
            && |p| == cfg.pageSize && PageLsn(p) == MixedLsn(us, Losers(Last(hist).wal))
            && DiskPage(RedoAll(Analysed(cfg, next), d.wal).files, cfg.pageSize, k)
               == if k in dpt then Again(us + vs, dpt[k], p) else p
  {
    hide Analyse, RedoAll, DiskPage, CrashInv, Again, Recover, MixedLsn, PageLsn, Upd, OnDisk;
    RecoveredLsn(cfg, hist, xs, k);
    var c1, d := Recover(cfg, hist, xs), Last(next);
    RecoverUpd(cfg, hist, xs, k);
    UpdConcat(c1.wal, d.wal[|c1.wal|..], k);
    assert d.wal == c1.wal + d.wal[|c1.wal|..];
    NextInPlace(cfg, next, k);
    RedoKeyAgain(Analysed(cfg, next), d.wal, k);
  }

  /** Record i, an update of the page, is applied by that redo exactly when it is not below the recLSN and above the
      pageLSN that redo has reached; otherwise redo does nothing with it. */
  lemma UpdateApplied(cfg: Config, hist: seq<Durable>, xs: seq<int>, next: seq<Durable>, k: PageKey, i: nat)
    requires AllCrashOk(cfg, hist) && next != [] && LeftOnDisk(cfg, Recover(cfg, hist, xs), Last(next), k)
    requires i < |Last(next).wal| && Last(next).wal[i].body.Update? && Last(next).wal[i].body.key == k
    ensures var d, p := Last(next), DiskPage(Recover(cfg, hist, xs).files, cfg.pageSize, k); var u := d.wal[i];
            var dpt, c := Analyse(d.wal, d.master).dpt, RedoAll(Analysed(cfg, next), d.wal[..i]);
            && |p| == cfg.pageSize && PageLsn(p) == MixedLsn(Upd(Last(hist).wal, k), Losers(Last(hist).wal))
            && var q := if k in dpt then Again(Upd(d.wal[..i], k), dpt[k], p) else p;
            && DiskPage(c.files, cfg.pageSize, k) == q
            && RedoRec(c, u) == if k in dpt && Applied(u, dpt[k], q) then DiskWrite(c, k, Patch(q, u)).0 else c
  {
    hide Analyse, RedoAll, DiskPage, CrashInv, Again, Recover, MixedLsn, PageLsn, Upd, OnDisk, Applied, RedoRec, InPlace, Patch;
    RecoveredLsn(cfg, hist, xs, k);
    NextInPlace(cfg, next, k);
    RedoKeyAgain(Analysed(cfg, next), Last(next).wal[..i], k);
    RedoOrNot(RedoAll(Analysed(cfg, next), Last(next).wal[..i]), Last(next).wal[i], k);
  }

  lemma RedoOrNot(c: Core, u: Rec, k: PageKey)
    requires InPlace(c, k) && u.body.Update? && u.body.key == k
    ensures var q := DiskPage(c.files, c.cfg.pageSize, k);
            && |q| == c.cfg.pageSize >= HEADER_SIZE
            && RedoRec(c, u) == if k in c.dpt && Applied(u, c.dpt[k], q) then DiskWrite(c, k, Patch(q, u)).0 else c
  {
    hide PageLsn, Patch, DiskPage, RedoRec;
    if k in c.dpt && Applied(u, c.dpt[k], DiskPage(c.files, c.cfg.pageSize, k)) {
      RedoApplies(c, k, u);
    } else {
      RedoLeaves(c, k, u);
    }
  }

  lemma NextInPlace(cfg: Config, next: seq<Durable>, k: PageKey)
    requires next != [] && cfg.pageSize >= HEADER_SIZE && ValidFileId(k.file) && OnDisk(Last(next).files, k)
    requires |DiskPage(Last(next).files, cfg.pageSize, k)| == cfg.pageSize
    ensures var c := Analysed(cfg, next);
            InPlace(c, k) && c.files == Last(next).files && c.cfg == cfg && c.dpt == Analyse(Last(next).wal, Last(next).master).dpt
  {
    hide Analyse;
  }

  lemma RecoverUpd(cfg: Config, hist: seq<Durable>, xs: seq<int>, k: PageKey)
    requires AllCrashOk(cfg, hist)
    ensures Upd(Recover(cfg, hist, xs).wal, k) == Upd(Last(hist).wal, k)
  {
    hide Recover, CrashInv, EndsIn, Present, OnlyEnds, Recorded;
    if Last(hist).wal == [] {
      EmptyRecorded(cfg, hist, xs);
    } else {
      FirstLeaves(cfg, hist, xs);
      EndsUpd(Last(hist).wal, Recover(cfg, hist, xs).wal, Last(Last(hist).wal).lsn, k);
    }
  }

  /** When later updates survive: where the page is listed from its first later update or before, and no earlier
      eligible update lies above the mixed LSN, the next redo applies all of them exactly when the mixed LSN is below
      the first of them, and passes over every one that is not above it. */
  lemma LaterUpdates(cfg: Config, hist: seq<Durable>, xs: seq<int>, next: seq<Durable>, k: PageKey)
    requires AllCrashOk(cfg, hist) && next != [] && LeftOnDisk(cfg, Recover(cfg, hist, xs), Last(next), k)
    requires |DiskPage(Recover(cfg, hist, xs).files, cfg.pageSize, k)| == cfg.pageSize
    requires var c1, d := Recover(cfg, hist, xs), Last(next); var vs, dpt := Later(c1, d, k), Analyse(d.wal, d.master).dpt;
             var p := DiskPage(c1.files, cfg.pageSize, k);
             && vs != [] && LoggedOver(p, vs) && k in dpt && dpt[k] <= vs[0].lsn && Shielded(Upd(Last(hist).wal, k), dpt[k], p)
    ensures var c1, d := Recover(cfg, hist, xs), Last(next); var us, vs := Upd(Last(hist).wal, k), Later(c1, d, k);
            var rec, p := Analyse(d.wal, d.master).dpt[k], DiskPage(c1.files, cfg.pageSize, k);
            var mixed := MixedLsn(us, Losers(Last(hist).wal));
            var page := DiskPage(RedoAll(Analysed(cfg, next), d.wal).files, cfg.pageSize, k);
            && ((forall i :: 0 <= i < |vs| ==> AppliesLater(us, vs, rec, p, i)) <==> mixed < vs[0].lsn)
            && (forall i :: 0 <= i < |vs| && vs[i].lsn <= mixed ==> !AppliesLater(us, vs, rec, p, i))
            && (mixed < vs[0].lsn ==> page == Replay(vs, p))
            && (Last(vs).lsn <= mixed ==> page == p)
  {
    hide Analyse, RedoAll, DiskPage, CrashInv, Again, Recover, MixedLsn, PageLsn, Upd, Replay, LoggedOver, Shielded, AppliesLater,
         LeftOnDisk, Later;
    LogKept(cfg, Recover(cfg, hist, xs), Last(next), k);
    NextRedo(cfg, hist, xs, next, k);
    var c1, d := Recover(cfg, hist, xs), Last(next);
    var us, vs := Upd(Last(hist).wal, k), Later(c1, d, k);
    var rec, p := Analyse(d.wal, d.master).dpt[k], DiskPage(c1.files, cfg.pageSize, k);
    forall i | 0 <= i < |vs|
      ensures vs[i].lsn <= PageLsn(p) ==> !AppliesLater(us, vs, rec, p, i)
      ensures PageLsn(p) < vs[0].lsn ==> AppliesLater(us, vs, rec, p, i)
    {
      AgainLater(us, vs, rec, p, i);
    }
    AgainLater(us, vs, rec, p, |vs| - 1);
    assert vs[..|vs|] == vs;
  }

  lemma LogKept(cfg: Config, c1: Core, d: Durable, k: PageKey)
    requires LeftOnDisk(cfg, c1, d, k)
    ensures c1.wal <= d.wal
  {
  }
}
