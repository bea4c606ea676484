/** Crash recovery as a whole: Analysis, Redo, Undo and the closing end records. */
module Recovery {
  import opened Pages
  import opened Log
  import opened Engine
  import opened CoreInvariant
  import opened PoolInvariant
  import opened Analysis
  import opened Redo
  import opened Undo

  // ---------------------------------------------------------------- the code

  /** One pass of the undo loop over a loser's update; its chain ends with an end record. */
  function UndoRec(c: Core, r: Rec, losers: set<int>): Core {
    if !r.body.Update? || r.xid !in losers then c
    else
      var c1 := RestorePage(c, r);
      if r.prev == NO_LSN then CloseTx(c1, r.xid) else c1
  }

  function RestorePage(c: Core, r: Rec): Core
    requires r.body.Update?
  {
    match DiskRead(c, r.body.key)
    case None => c
    case Some(data) => DiskWrite(c, r.body.key, Unpatch(data, r)).0
  }

  function CloseTx(c: Core, xid: int): Core {
    var c1 := Emit(c, xid, End);
    c1.(tx := c1.tx - {xid})
  }

  /** All losers together, in descending LSN order. */
  function UndoAll(c: Core, recs: seq<Rec>, losers: set<int>): Core
    decreases |recs|
  {
    if recs == [] then c else UndoAll(UndoRec(c, Last(recs), losers), Front(recs), losers)
  }

  function CloseAll(c: Core, xs: seq<int>): Core
    decreases |xs|
  {
    if xs == [] then c else CloseAll(CloseTx(c, xs[0]), xs[1..])
  }

  /** Recovery of the last state of `hist`; `xs` is the order in which committed transactions that
      lack an end record get one. */
  function Recover(cfg: Config, hist: seq<Durable>, xs: seq<int>): Core
    requires hist != []
  {
    var c := Restart(cfg, hist);
    if c.wal == [] then c
    else
      var c1 := RedoAll(Analysed(cfg, hist), c.wal);
      FlushLog(CloseAll(UndoAll(c1, c.wal, UndoLosers(c1.tx)), xs))
  }

  /** A possible order of the closing end records. */
  ghost predicate ClosingOrder(cfg: Config, hist: seq<Durable>, xs: seq<int>)
    requires hist != []
  {
    var tx := Analysed(cfg, hist).tx;
    && (forall x :: x in xs <==> x in tx && tx[x].status == Committed)
    && forall i, j :: 0 <= i < j < |xs| ==> xs[i] != xs[j]
  }

  // ---------------------------------------------------------------- undo, page by page

  ghost predicate UndoReady(c: Core, recs: seq<Rec>, losers: set<int>) {
    && FilesOk(c.files, c.cfg.pageSize) && Tight(c)
    && forall i :: 0 <= i < |recs| && recs[i].body.Update? && recs[i].xid in losers ==>
         ValidFileId(recs[i].body.key.file) && OnDisk(c.files, recs[i].body.key)
  }

  /** Every page the log updates is in its file. */
  ghost predicate Present(c: Core, recs: seq<Rec>) {
    && FilesOk(c.files, c.cfg.pageSize) && Tight(c)
    && forall i :: 0 <= i < |recs| && recs[i].body.Update? ==>
         ValidFileId(recs[i].body.key.file) && OnDisk(c.files, recs[i].body.key)
  }

  lemma PresentReady(c: Core, recs: seq<Rec>, losers: set<int>)
    requires Present(c, recs)
    ensures UndoReady(c, recs, losers)
  {
    hide FilesOk, Tight, OnDisk, ValidFileId;
  }

  lemma CloseTxPages(c: Core, xid: int)
    ensures CloseTx(c, xid).files == c.files && CloseTx(c, xid).numPages == c.numPages && CloseTx(c, xid).cfg == c.cfg
  {
  }

  lemma UndoRecPages(c: Core, recs: seq<Rec>, losers: set<int>)
    requires recs != [] && UndoReady(c, recs, losers)
    ensures var c' := UndoRec(c, Last(recs), losers);
            && UndoReady(c', Front(recs), losers) && c'.cfg == c.cfg
            && forall k :: DiskPage(c'.files, c.cfg.pageSize, k) ==
                           if Last(recs).body.Update? && Last(recs).xid in losers && Last(recs).body.key == k
                           then Unpatch(DiskPage(c.files, c.cfg.pageSize, k), Last(recs))
                           else DiskPage(c.files, c.cfg.pageSize, k)
  {
    hide CloseTx, Unpatch;
    var r := Last(recs);
    if r.body.Update? && r.xid in losers {
      var k := r.body.key;
      assert OnDisk(c.files, k);
      var data := Unpatch(DiskPage(c.files, c.cfg.pageSize, k), r);
      var c1 := RawWrite(c, k, data);
      assert c1 == DiskWrite(c, k, data).0;
      WrittenFiles(c, k, data);
      CloseTxPages(c1, r.xid);
      forall j ensures DiskPage(c1.files, c.cfg.pageSize, j) == if j == k then data else DiskPage(c.files, c.cfg.pageSize, j) {
        PutPageEffect(c.files, c.cfg.pageSize, k, data, j);
      }
      forall i | 0 <= i < |recs| - 1 && recs[i].body.Update? && recs[i].xid in losers
        ensures OnDisk(c1.files, recs[i].body.key)
      {
      }
    }
  }

  lemma {:induction false} UndoAllPages(c: Core, recs: seq<Rec>, losers: set<int>, k: PageKey)
    requires UndoReady(c, recs, losers)
    ensures DiskPage(UndoAll(c, recs, losers).files, c.cfg.pageSize, k)
         == UndoPage(Upd(recs, k), losers, DiskPage(c.files, c.cfg.pageSize, k))
    decreases |recs|
  {
    hide UndoRec, UndoReady, Unpatch, DiskPage;
    if recs != [] {
      UndoRecPages(c, recs, losers);
      var c1 := UndoRec(c, Last(recs), losers);
      UndoAllPages(c1, Front(recs), losers, k);
      if Last(recs).body.Update? && Last(recs).body.key == k {
        assert Front(Upd(recs, k)) == Upd(Front(recs), k);
      }
    }
  }

  lemma {:induction false} CloseAllPages(c: Core, xs: seq<int>)
    ensures CloseAll(c, xs).files == c.files && CloseAll(c, xs).numPages == c.numPages && CloseAll(c, xs).cfg == c.cfg
    decreases |xs|
  {
    hide CloseTx;
    if xs != [] {
      CloseTxPages(c, xs[0]);
      CloseAllPages(CloseTx(c, xs[0]), xs[1..]);
    }
  }

  lemma {:induction false} UndoNobody(c: Core, recs: seq<Rec>)
    ensures UndoAll(c, recs, {}) == c
    decreases |recs|
  {
    if recs != [] {
      UndoNobody(c, Front(recs));
    }
  }

  // ---------------------------------------------------------------- the recovered pages

  lemma PresentAfterRedo(c: Core)
    requires RedoInv(c, |c.wal|)
    ensures Present(c, c.wal)
  {
    hide LogInv, HistPart, CkptOk, DptCovers;
    forall i | 0 <= i < |c.wal| && c.wal[i].body.Update?
      ensures ValidFileId(c.wal[i].body.key.file) && OnDisk(c.files, c.wal[i].body.key)
    {
      var k := c.wal[i].body.key;
      UpdateKey(c.wal, i, c.cfg.pageSize);
      UpdAt(c.wal, i);
      assert c.wal[..|c.wal|] == c.wal;
      assert RedoPage(c, |c.wal|, k);
      var n: nat :| RedoHolds(c, |c.wal|, k, n);
      ReplayLsn(c.wal, k, n, c.cfg.pageSize);
    }
  }

  /** What recovery leaves on every page: the replay of its whole durable history with the losers'
      changes undone. */
  lemma RecoveredPage(cfg: Config, hist: seq<Durable>, xs: seq<int>, k: PageKey)
    requires AllCrashOk(cfg, hist) && !LostZero(Last(hist).wal, Last(hist).files, cfg.pageSize)
    ensures var wal := Last(hist).wal; var us := Upd(wal, k);
            DiskPage(Recover(cfg, hist, xs).files, cfg.pageSize, k)
            == UndoPage(us, Losers(wal), Replay(us, Zeros(cfg.pageSize)))
  {
    hide LogInv, LostZero, Analyse, RedoAll, CrashInv, DiskPage, Replay, UndoAll, CloseAll, UndoReady, Present, RedoInv;
    var c, ps := Analysed(cfg, hist), cfg.pageSize;
    assert CrashInv(Last(hist), ps);
    var wal := c.wal;
    if wal == [] {
      EmptyPage(Last(hist), ps, k);
    } else {
      RedoRepeatsHistory(cfg, hist);
      var c1 := RedoAll(c, wal);
      PresentAfterRedo(c1);
      PresentReady(c1, wal, Losers(wal));
      WalInv(Last(hist), ps);
      AnalysisTx(wal, c.master, ps);
      UndoLosersAre(c.tx, wal, ps);
      UndoAllPages(c1, wal, Losers(wal), k);
      CloseAllPages(UndoAll(c1, wal, Losers(wal)), xs);
    }
  }

  lemma WalInv(d: Durable, ps: nat)
    requires CrashInv(d, ps)
    ensures LogInv(d.wal, ps)
  {
  }

  lemma EmptyPage(d: Durable, ps: nat, k: PageKey)
    requires CrashInv(d, ps) && d.wal == []
    ensures Upd(d.wal, k) == [] && DiskPage(d.files, ps, k) == Zeros(ps) == Replay([], Zeros(ps))
    ensures UndoPage([], Losers(d.wal), Zeros(ps)) == Zeros(ps)
  {
    assert PageOk(d.wal, d.files, ps, k);
  }
}
