/** Recovery from every crash state, the zero-LSN loss included: what it leaves on each page, and exactly
    which bytes are then as the winners alone would have made them. */
module FullRecovery {
  import opened Pages
  import opened Log
  import opened Engine
  import opened CoreInvariant
  import opened Analysis
  import opened Redo
  import opened Undo
  import opened Recovery
  import opened LostUpdate

  /** The page redo leaves: its whole durable history, or all of it but the update lost to the zero-LSN test. */
  function RedonePage(d: Durable, ps: nat, k: PageKey): (p: Bytes)
    ensures |p| == ps
  {
    var us := Upd(d.wal, k);
    if Loses(d, ps, k) && us != [] then Replay(us[1..], Zeros(ps)) else Replay(us, Zeros(ps))
  }

  /** Redo loses the first update of this page. */
  predicate Loses(d: Durable, ps: nat, k: PageKey) {
    LostZero(d.wal, d.files, ps) && k == d.wal[0].body.key
  }

  // ---------------------------------------------------------------- redo

  lemma RedoneAlways(cfg: Config, hist: seq<Durable>, k: PageKey)
    requires AllCrashOk(cfg, hist)
    ensures DiskPage(RedoAll(Analysed(cfg, hist), Last(hist).wal).files, cfg.pageSize, k)
         == RedonePage(Last(hist), cfg.pageSize, k)
  {
    hide Analyse, RedoAll, CrashInv, Replay, LostZero, DiskPage, RedoInv, OnlyPages;
    if LostZero(Last(hist).wal, Last(hist).files, cfg.pageSize) {
      AllButFirst(cfg, hist, k);
    } else {
      RedoRepeatsHistory(cfg, hist);
    }
  }

  /** Twins have the same files and page counts. */
  lemma TwinPresent(c: Core, t: Core, k: PageKey, recs: seq<Rec>)
    requires Twin(c, t, k) && Present(t, recs) && |DiskPage(c.files, c.cfg.pageSize, k)| == c.cfg.pageSize
    ensures Present(c, recs)
  {
    forall f, i | f in c.files && 0 <= i < |c.files[f]| ensures |c.files[f][i]| == c.cfg.pageSize {
      var j := PageKey(f, i);
      assert DiskPage(c.files, c.cfg.pageSize, j) == c.files[f][i];
      assert DiskPage(t.files, c.cfg.pageSize, j) == t.files[f][i];
    }
    assert FilesOk(c.files, c.cfg.pageSize) && Tight(c);
    forall i | 0 <= i < |recs| && recs[i].body.Update? ensures OnDisk(c.files, recs[i].body.key) {
      assert OnDisk(t.files, recs[i].body.key);
    }
  }

  /** After redo every updated page is in its file, also when the first update was lost. */
  lemma RedonePresent(cfg: Config, hist: seq<Durable>)
    requires AllCrashOk(cfg, hist)
    ensures var c := RedoAll(Analysed(cfg, hist), Last(hist).wal);
            && Present(c, Last(hist).wal) && c.cfg == cfg && c.tx == Analysed(cfg, hist).tx && c.wal == Last(hist).wal
  {
    hide Analyse, RedoAll, CrashInv, Replay, LostZero, DiskPage, RedoInv, Present, Twin, LogInv, RedoRec, DptCovers;
    var d, ps := Last(hist), cfg.pageSize;
    if LostZero(d.wal, d.files, ps) {
      assert CrashInv(d, ps);
      RedoneTwins(cfg, hist);
      RepairedOk(d, ps);
      var h := [Repaired(d, ps)];
      RedoRepeatsHistory(cfg, h);
      PresentAfterRedo(RedoAll(Analysed(cfg, h), d.wal));
      TwinPresent(RedoAll(Analysed(cfg, hist), d.wal), RedoAll(Analysed(cfg, h), d.wal), d.wal[0].body.key, d.wal);
    } else {
      RedoRepeatsHistory(cfg, hist);
      PresentAfterRedo(RedoAll(Analysed(cfg, hist), d.wal));
    }
  }

  /** Redo from the crash state and from its repaired copy end in twins. */
  lemma RedoneTwins(cfg: Config, hist: seq<Durable>)
    requires AllCrashOk(cfg, hist) && LostZero(Last(hist).wal, Last(hist).files, cfg.pageSize)
    ensures Last(hist).wal != []
    ensures var d := Last(hist); var k := d.wal[0].body.key;
            && d.wal[0].body.Update? && k.file in d.files
            && var c, t := RedoAll(Analysed(cfg, hist), d.wal), RedoAll(Analysed(cfg, [Repaired(d, cfg.pageSize)]), d.wal);
            && Twin(c, t, k) && |DiskPage(c.files, cfg.pageSize, k)| == cfg.pageSize
            && c.cfg == cfg && c.tx == Analysed(cfg, hist).tx && c.wal == d.wal
  {
    hide LogInv, Analyse, CkptOk, FilesOk, RedoRec, RedoAll, CrashInv, RedoInv, OnlyPages, Twin;
    var d, ps := Last(hist), cfg.pageSize;
    assert CrashInv(d, ps);
    WalOf(d, ps);
    BothSkip(cfg, hist);
    assert d.wal[..|d.wal|] == d.wal;
    BehindPrefix(Analysed(cfg, hist), Analysed(cfg, [Repaired(d, ps)]), d.wal[0].body.key, |d.wal|);
  }

  // ---------------------------------------------------------------- recovery

  /** What recovery leaves on every page, from every crash state. */
  lemma RecoveredAlways(cfg: Config, hist: seq<Durable>, xs: seq<int>, k: PageKey)
    requires AllCrashOk(cfg, hist)
    ensures var d := Last(hist);
            DiskPage(Recover(cfg, hist, xs).files, cfg.pageSize, k)
            == UndoPage(Upd(d.wal, k), Losers(d.wal), RedonePage(d, cfg.pageSize, k))
  {
    hide Analyse, RedoAll, CrashInv, DiskPage, UndoAll, CloseAll, RedonePage, Present, UndoReady, LostZero, LogInv;
    var c, ps := Analysed(cfg, hist), cfg.pageSize;
    assert CrashInv(Last(hist), ps);
    var wal := c.wal;
    if wal == [] {
      RecoveredPage(cfg, hist, xs, k) by {
        assert !LostZero(wal, Last(hist).files, ps) by {
          NothingToLose(wal, Last(hist).files, ps);
        }
      }
      NothingToLose(wal, Last(hist).files, ps);
      WholePage(Last(hist), ps, k);
    } else {
      RedoneAlways(cfg, hist, k);
      RedonePresent(cfg, hist);
      var c1 := RedoAll(c, wal);
      PresentReady(c1, wal, Losers(wal));
      WalInv(Last(hist), ps);
      AnalysisTx(wal, c.master, ps);
      UndoLosersAre(c.tx, wal, ps);
      UndoAllPages(c1, wal, Losers(wal), k);
      CloseAllPages(UndoAll(c1, wal, Losers(wal)), xs);
    }
  }

  /** With the checkpoint of the master record, with another one or with none, recovery ends in the same pages. */
  lemma CheckpointIrrelevant(cfg: Config, hist: seq<Durable>, master: int, xs: seq<int>, ys: seq<int>, k: PageKey)
    requires AllCrashOk(cfg, hist)
    ensures DiskPage(Recover(cfg, hist, xs).files, cfg.pageSize, k)
         == DiskPage(Recover(cfg, [Last(hist).(master := master)], ys).files, cfg.pageSize, k)
  {
    hide Recover, DiskPage, UndoPage, CrashInv, LostZero;
    MasterUnread(Last(hist), master, cfg.pageSize);
    RecoveredAlways(cfg, hist, xs, k);
    RecoveredAlways(cfg, [Last(hist).(master := master)], ys, k);
  }

  lemma MasterUnread(d: Durable, master: int, ps: nat)
    requires CrashInv(d, ps)
    ensures CrashInv(d.(master := master), ps)
  {
    hide LogInv, FilesOk, HoldsFirst;
    forall k ensures PageOk(d.wal, d.files, ps, k) {
    }
  }

  lemma NothingToLose(wal: seq<Rec>, files: Files, ps: nat)
    requires wal == []
    ensures !LostZero(wal, files, ps)
  {
  }

  lemma WholePage(d: Durable, ps: nat, k: PageKey)
    requires !LostZero(d.wal, d.files, ps)
    ensures RedonePage(d, ps, k) == Replay(Upd(d.wal, k), Zeros(ps))
  {
  }

  /** The byte is wrong for one of two reasons: undo could not restore it, or no loser changed it and it
      shows the lost update. */
  predicate Restored(d: Durable, ps: nat, k: PageKey, b: nat) {
    var us, losers := Upd(d.wal, k), Losers(d.wal);
    && Survives(us, losers, b)
    && !(Loses(d, ps, k) && FirstLoser(us, losers, b) == |us| && LossShows(us, b))
  }

  /** Crash atomicity from every crash state: exactly the restored bytes equal the winners-only page. */
  lemma CrashAtomicity(cfg: Config, hist: seq<Durable>, xs: seq<int>, k: PageKey, b: nat)
    requires AllCrashOk(cfg, hist) && b < cfg.pageSize
    ensures var us := Upd(Last(hist).wal, k); var losers := Losers(Last(hist).wal);
            var page := DiskPage(Recover(cfg, hist, xs).files, cfg.pageSize, k);
            && |page| == cfg.pageSize
            && (page[b] == WinnersOnly(us, losers, Zeros(cfg.pageSize))[b] <==> Restored(Last(hist), cfg.pageSize, k, b))
  {
    hide CrashInv, LogInv, Recover, DiskPage, Survives, WinnersOnly, UndoPage, Replay, Upd, Consistent, LostZero, LossShows;
    var d, ps := Last(hist), cfg.pageSize;
    RecoveredAlways(cfg, hist, xs, k);
    assert CrashInv(d, ps);
    WalInv(d, ps);
    HistoryConsistent(d.wal, k, ps);
    var us, losers := Upd(d.wal, k), Losers(d.wal);
    AtomicByte(us, losers, b, ps);
    UndoneByte(us, losers, b, ps);
    UndoByte(us, losers, RedonePage(d, ps, k), b, ps);
    if FirstLoser(us, losers, b) == |us| {
      assert us[..|us|] == us;
      UntouchedSurvives(us, losers, b);
      LossAt(d, k, b, ps);
    }
  }

  lemma UntouchedSurvives(us: seq<Rec>, losers: set<int>, b: nat)
    requires FirstLoser(us, losers, b) == |us|
    ensures Survives(us, losers, b)
  {
  }

  lemma LossAt(d: Durable, k: PageKey, b: nat, ps: nat)
    requires ps >= HEADER_SIZE && LogInv(d.wal, ps) && b < ps
    ensures RedonePage(d, ps, k)[b] == Replay(Upd(d.wal, k), Zeros(ps))[b]
       <==> !(Loses(d, ps, k) && LossShows(Upd(d.wal, k), b))
  {
    hide LogInv, Replay, LossShows;
    if Loses(d, ps, k) {
      FirstUpdate(d.wal, k, ps);
      LossAtByte(Upd(d.wal, k), b, ps);
    }
  }

  // ---------------------------------------------------------------- interrupted redo

  /** Redo cut off at any durable state, then Analysis and Redo again: the pages of the uninterrupted run
      come back exactly when the cut left no page on which a lost zero-LSN update shows. */
  lemma RedoInterrupted(cfg: Config, hist: seq<Durable>, j: nat)
    requires AllCrashOk(cfg, hist) && !LostZero(Last(hist).wal, Last(hist).files, cfg.pageSize)
    requires |hist| - 1 <= j < |RedoAll(Analysed(cfg, hist), Last(hist).wal).hist|
    ensures var c' := RedoAll(Analysed(cfg, hist), Last(hist).wal); var d := c'.hist[j];
            && AllCrashOk(cfg, c'.hist[..j + 1]) && d.wal == Last(hist).wal
            && ((forall k :: DiskPage(RedoAll(Analysed(cfg, c'.hist[..j + 1]), d.wal).files, cfg.pageSize, k)
                          == DiskPage(c'.files, cfg.pageSize, k))
                <==> (LostZero(d.wal, d.files, cfg.pageSize) ==>
                        forall b :: 0 <= b < cfg.pageSize ==> !LossShows(Upd(d.wal, d.wal[0].body.key), b)))
  {
    hide LogInv, LostZero, FilesOk, Tight, Analyse, RedoAll, CrashInv, DiskPage, Replay, LossShows;
    RedoRepeatsHistory(cfg, hist);
    var c' := RedoAll(Analysed(cfg, hist), Last(hist).wal);
    var h := c'.hist[..j + 1];
    assert h[j] == Last(h) && Last(h).wal == Last(hist).wal;
    RedoExactly(cfg, h);
  }
}
