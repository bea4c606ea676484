/** How long start-up leaves every data file: as long as the updates that redo looks at need, and no longer; and
    which page the first allocation hands out. */
module FileLengths {
  import opened Pages
  import opened Log
  import opened Engine
  import opened CoreInvariant
  import opened Pool
  import opened PoolInvariant
  import opened Analysis
  import opened Redo
  import opened Undo
  import opened Recovery
  import opened FullRecovery
  import opened AfterRecovery
  import opened SecondRestart

  /** Redo looks at this record, and it is of file f. */
  predicate LooksAt(dpt: map<PageKey, nat>, r: Rec, f: string) {
    r.body.Update? && r.body.key.file == f && r.body.key in dpt && r.lsn >= dpt[r.body.key]
  }

  /** One more than the largest page of f among the updates redo looks at; 0 if there is none. */
  function {:induction false} Needed(recs: seq<Rec>, dpt: map<PageKey, nat>, f: string): (n: nat)
    ensures forall i :: 0 <= i < |recs| && LooksAt(dpt, recs[i], f) ==> recs[i].body.key.pid < n
    ensures n > 0 ==> exists i :: 0 <= i < |recs| && LooksAt(dpt, recs[i], f) && recs[i].body.key.pid == n - 1
  {
    if recs == [] then 0
    else
      var m := Needed(Front(recs), dpt, f);
      var r := Last(recs);
      assert forall i :: 0 <= i < |recs| - 1 ==> Front(recs)[i] == recs[i];
      assert recs[|recs| - 1] == r;
      assert forall i :: 0 <= i < |recs| - 1 && LooksAt(dpt, Front(recs)[i], f) ==> LooksAt(dpt, recs[i], f);
      if LooksAt(dpt, r, f) then Max(m, r.body.key.pid + 1) else m
  }

  function Length(files: Files, f: string): nat {
    if f in files then |files[f]| else 0
  }

  /** The files of c' are those of c, except that f is there and has n pages. */
  ghost predicate Resized(c: Core, c': Core, f: string, n: nat) {
    && Tight(c') && c'.cfg == c.cfg && c'.dpt == c.dpt
    && f in c'.files && |c'.files[f]| == n
    && forall g :: g != f ==> (g in c'.files <==> g in c.files) && Length(c'.files, g) == Length(c.files, g)
  }

  lemma PageRewritten(c: Core, k: PageKey, data: Bytes)
    requires Tight(c) && k.file in c.files && k.pid <= |c.files[k.file]|
    ensures var n := |c.files[k.file]|; Resized(c, RawWrite(c, k, data), k.file, if k.pid == n then n + 1 else n)
  {
  }

  lemma {:induction false} ZerosLength(c: Core, f: string, n: nat)
    requires Tight(c) && f in c.files && ValidFileId(f)
    ensures Resized(c, WriteZeros(c, f, n), f, |c.files[f]| + n)
    decreases n
  {
    hide RawWrite, DiskPage;
    if n != 0 {
      var k, z := PageKey(f, |c.files[f]|), Zeros(c.cfg.pageSize);
      PageRewritten(c, k, z);
      assert DiskWrite(c, PageKey(f, NumPages(c, f)), z).0 == RawWrite(c, k, z);
      ZerosLength(RawWrite(c, k, z), f, n - 1);
    }
  }

  lemma EnsureLength(c: Core, k: PageKey)
    requires Tight(c) && ValidFileId(k.file)
    ensures Resized(c, EnsurePage(c, k), k.file, Max(Length(c.files, k.file), k.pid + 1))
  {
    hide WriteZeros;
    var c1 := if FileExists(c, k.file) then c else CreateFile(c, k.file);
    assert Tight(c1) && k.file in c1.files && |c1.files[k.file]| == Length(c.files, k.file);
    ZerosLength(c1, k.file, MissingPages(c1, k));
  }

  lemma ApplyLength(c: Core, r: Rec)
    requires Tight(c) && r.body.Update? && OnDisk(c.files, r.body.key)
    ensures Resized(c, ApplyRec(c, r), r.body.key.file, |c.files[r.body.key.file]|)
  {
    hide RawWrite, Patch, DiskPage;
    var k := r.body.key;
    match DiskRead(c, k)
    case None =>
    case Some(data) => PageRewritten(c, k, Patch(data, r));
  }

  lemma ResizedThen(c: Core, c1: Core, c2: Core, f: string, n: nat, m: nat)
    requires Resized(c, c1, f, n) && Resized(c1, c2, f, m)
    ensures Resized(c, c2, f, m)
  {
  }

  /** One record: its page is in its file afterwards, and no file is longer than that takes. */
  lemma RedoRecLength(c: Core, r: Rec, f: string)
    requires Tight(c) && (r.body.Update? ==> ValidFileId(r.body.key.file))
    ensures var c' := RedoRec(c, r);
            && Tight(c') && c'.cfg == c.cfg && c'.dpt == c.dpt
            && (f in c'.files <==> f in c.files || LooksAt(c.dpt, r, f))
            && Length(c'.files, f) == if LooksAt(c.dpt, r, f) then Max(Length(c.files, f), r.body.key.pid + 1) else Length(c.files, f)
  {
    hide ApplyRec, EnsurePage, DiskPage, PageLsn;
    if r.body.Update? && LooksAt(c.dpt, r, r.body.key.file) {
      var k := r.body.key;
      if OnDisk(c.files, k) {
        ApplyLength(c, r);
      } else {
        EnsureLength(c, k);
        var c1 := EnsurePage(c, k);
        ApplyLength(c1, r);
        ResizedThen(c, c1, ApplyRec(c1, r), k.file, k.pid + 1, k.pid + 1);
      }
    }
  }

  /** Redo makes every file as long as the updates it looks at need, unless it is longer already. */
  lemma {:induction false} RedoLengths(c: Core, recs: seq<Rec>, f: string)
    requires Tight(c) && forall i :: 0 <= i < |recs| && recs[i].body.Update? ==> ValidFileId(recs[i].body.key.file)
    ensures var c' := RedoAll(c, recs);
            && Tight(c') && c'.cfg == c.cfg && c'.dpt == c.dpt
            && (f in c'.files <==> f in c.files || Needed(recs, c.dpt, f) > 0)
            && Length(c'.files, f) == Max(Length(c.files, f), Needed(recs, c.dpt, f))
  {
    hide RedoRec, Tight, Length;
    if recs != [] {
      assert recs[|recs| - 1] == Last(recs);
      forall i | 0 <= i < |recs| - 1 && Front(recs)[i].body.Update? ensures ValidFileId(Front(recs)[i].body.key.file) {
        assert recs[i] == Front(recs)[i];
      }
      RedoLengths(c, Front(recs), f);
      RedoRecLength(RedoAll(c, Front(recs)), Last(recs), f);
    }
  }

  // ---------------------------------------------------------------- undo

  lemma UndoRecLength(c: Core, r: Rec, losers: set<int>, f: string)
    requires Tight(c)
    ensures var c' := UndoRec(c, r, losers); Tight(c') && (f in c'.files <==> f in c.files) && Length(c'.files, f) == Length(c.files, f)
  {
    hide CloseTx, RawWrite, Unpatch, DiskPage;
    if r.body.Update? && r.xid in losers {
      var k, c1 := r.body.key, RestorePage(c, r);
      match DiskRead(c, k) {
        case None =>
        case Some(data) => PageRewritten(c, k, Unpatch(data, r));
      }
      CloseTxPages(c1, r.xid);
    }
  }

  lemma {:induction false} UndoLengths(c: Core, recs: seq<Rec>, losers: set<int>, f: string)
    requires Tight(c)
    ensures var c' := UndoAll(c, recs, losers);
            Tight(c') && (f in c'.files <==> f in c.files) && Length(c'.files, f) == Length(c.files, f)
    decreases |recs|
  {
    hide UndoRec, Tight, Length;
    if recs != [] {
      UndoRecLength(c, Last(recs), losers, f);
      UndoLengths(UndoRec(c, Last(recs), losers), Front(recs), losers, f);
    }
  }

  // ---------------------------------------------------------------- start-up

  /** How long every file is after start-up, and that the engine counts its pages so. */
  lemma RecoveredLengths(cfg: Config, hist: seq<Durable>, xs: seq<int>, f: string)
    requires AllCrashOk(cfg, hist)
    ensures var d, c := Last(hist), Recover(cfg, hist, xs); var n := Needed(d.wal, Analyse(d.wal, d.master).dpt, f);
            && (f in c.files <==> f in d.files || n > 0)
            && Length(c.files, f) == Max(Length(d.files, f), n)
            && (f in c.numPages <==> f in c.files) && NumPages(c, f) == Length(c.files, f)
  {
    hide Analyse, RedoAll, UndoAll, CloseAll, FlushLog, LogInv, Needed, FilesOk, PageOk;
    var d := Last(hist);
    assert CrashInv(d, cfg.pageSize);
    var c := Analysed(cfg, hist);
    RestartTight(cfg, hist);
    ValidIds(d.wal, cfg.pageSize);
    RedoLengths(c, d.wal, f);
    var c1 := RedoAll(c, d.wal);
    if d.wal == [] {
      NothingNeeded(d.master, f);
    } else {
      UndoLengths(c1, d.wal, UndoLosers(c1.tx), f);
      var c2 := UndoAll(c1, d.wal, UndoLosers(c1.tx));
      CloseAllPages(c2, xs);
      FlushKeepsPages(CloseAll(c2, xs));
    }
  }

  lemma ValidIds(log: seq<Rec>, ps: nat)
    requires ps >= HEADER_SIZE && LogInv(log, ps)
    ensures forall i :: 0 <= i < |log| && log[i].body.Update? ==> ValidFileId(log[i].body.key.file)
  {
    forall i | 0 <= i < |log| && log[i].body.Update? ensures ValidFileId(log[i].body.key.file) {
      UpdateKey(log, i, ps);
    }
  }

  lemma NothingNeeded(master: int, f: string)
    ensures Needed([], Analyse([], master).dpt, f) == 0
  {
  }

  /** The page the first allocation after start-up hands out. */
  lemma FirstAllocation(cfg: Config, hist: seq<Durable>, xs: seq<int>, poolSize: nat, policy: Policy, f: string)
    requires AllCrashOk(cfg, hist) && poolSize >= 1
    ensures var d, c := Last(hist), Recover(cfg, hist, xs); var s := Sys(c, poolSize, policy, [], map[], map[]);
            && FramesOk(s)
            && AllocatePage(s, f).1 == Some(Max(Length(d.files, f), Needed(d.wal, Analyse(d.wal, d.master).dpt, f)))
  {
    hide Recover, Analyse, Needed, CrashInv;
    RecoveredLengths(cfg, hist, xs, f);
    RecoveredCfg(cfg, hist, xs);
  }

  lemma RecoveredCfg(cfg: Config, hist: seq<Durable>, xs: seq<int>)
    requires AllCrashOk(cfg, hist)
    ensures Recover(cfg, hist, xs).cfg == cfg && cfg.pageSize >= HEADER_SIZE
  {
    hide Analyse, RedoAll, UndoAll, CloseAll, CrashInv;
    assert CrashInv(Last(hist), cfg.pageSize);
    PageSizeLarge(Last(hist), cfg.pageSize);
    if Last(hist).wal != [] {
      FirstLeaves(cfg, hist, xs);
    }
  }

  lemma PageSizeLarge(d: Durable, ps: nat)
    requires CrashInv(d, ps)
    ensures ps >= HEADER_SIZE
  {
  }
}
