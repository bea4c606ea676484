/** Phase 2 of recovery: repeating history on the pages of the dirty page table. */
module Redo {
  import opened Pages
  import opened Log
  import opened Engine
  import opened CoreInvariant
  import opened Analysis
  import opened PoolInvariant

  /** The engine right after the last state of `hist` was found on disk. */
  function Restart(cfg: Config, hist: seq<Durable>): Core
    requires hist != []
  {
    var d := Last(hist);
    Core(cfg, d.wal, d.files, d.master, hist,
         map f | f in d.files :: |d.files[f]|,
         [], map[], map[],
         if d.wal == [] then 0 else Last(d.wal).lsn + 1,
         if d.wal == [] then NO_LSN else Last(d.wal).lsn,
         MaxXid(d.wal) + 1, 0)
  }

  function MaxXid(recs: seq<Rec>): (r: int)
    ensures r >= -1
    ensures forall i :: 0 <= i < |recs| ==> recs[i].xid <= r
    ensures r == -1 || exists i :: 0 <= i < |recs| && recs[i].xid == r
  {
    if recs == [] then -1
    else
      var m := MaxXid(Front(recs));
      assert forall i :: 0 <= i < |recs| - 1 ==> Front(recs)[i] == recs[i];
      assert recs[|recs| - 1] == Last(recs);
      if Last(recs).xid > m then Last(recs).xid else m
  }

  function WriteZeros(c: Core, f: string, n: nat): Core
    decreases n
  {
    if n == 0 then c
    else WriteZeros(DiskWrite(c, PageKey(f, NumPages(c, f)), Zeros(c.cfg.pageSize)).0, f, n - 1)
  }

  /** `_ensure_page_exists` */
  function EnsurePage(c: Core, k: PageKey): Core {
    var c1 := if FileExists(c, k.file) then c else CreateFile(c, k.file);
    WriteZeros(c1, k.file, MissingPages(c1, k))
  }

  function MissingPages(c: Core, k: PageKey): nat {
    if k.pid < NumPages(c, k.file) then 0 else k.pid + 1 - NumPages(c, k.file)
  }

  function ApplyRec(c: Core, r: Rec): Core
    requires r.body.Update?
  {
    match DiskRead(c, r.body.key)
    case None => c
    case Some(data) => DiskWrite(c, r.body.key, Patch(data, r)).0
  }

  function RedoRec(c: Core, r: Rec): Core {
    if !r.body.Update? || r.body.key !in c.dpt || r.lsn < c.dpt[r.body.key] then c
    else
      var k := r.body.key;
      if FileExists(c, k.file) && k.pid < NumPages(c, k.file) then
        match DiskRead(c, k)
        case None => c
        case Some(data) =>
          if |data| >= HEADER_SIZE && PageLsn(data) >= r.lsn then c else ApplyRec(c, r)
      else ApplyRec(EnsurePage(c, k), r)
  }

  function RedoAll(c: Core, recs: seq<Rec>): Core {
    if recs == [] then c else RedoRec(RedoAll(c, Front(recs)), Last(recs))
  }

  /** Redo passes over the pages the table does not list. */
  lemma {:induction false} RedoNothing(c: Core, recs: seq<Rec>)
    requires forall i :: 0 <= i < |recs| && recs[i].body.Update? ==> recs[i].body.key !in c.dpt
    ensures RedoAll(c, recs) == c
  {
    if recs != [] {
      assert recs[|recs| - 1] == Last(recs);
      RedoNothing(c, Front(recs));
    }
  }

  // ---------------------------------------------------------------- the loop invariant

  predicate OnDisk(files: Files, k: PageKey) {
    k.file in files && k.pid < |files[k.file]|
  }

  /** The one update redo loses: it has LSN 0 and its page is on disk, still all zeros, so that
      the pageLSN test takes it for applied. */
  predicate LostZero(recs: seq<Rec>, files: Files, ps: nat) {
    && recs != [] && recs[0].body.Update? && recs[0].lsn == 0
    && OnDisk(files, recs[0].body.key) && DiskPage(files, ps, recs[0].body.key) == Zeros(ps)
  }

  ghost predicate RedoHolds(c: Core, m: nat, k: PageKey, n: nat)
    requires m <= |c.wal|
  {
    && HoldsFirst(c.wal, c.files, c.cfg.pageSize, k, n)
    && n >= |Upd(c.wal[..m], k)|
    && DptCovers(c.dpt, c.wal, k, n)
  }

  ghost predicate RedoPage(c: Core, m: nat, k: PageKey)
    requires m <= |c.wal|
  {
    exists n: nat :: RedoHolds(c, m, k, n)
  }

  predicate Tight(c: Core) {
    c.files.Keys == c.numPages.Keys && forall f :: f in c.files ==> |c.files[f]| == c.numPages[f]
  }

  /** After m records: every page holds at least its updates among them. */
  ghost predicate RedoInv(c: Core, m: nat) {
    && m <= |c.wal|
    && c.cfg.pageSize >= HEADER_SIZE && LogInv(c.wal, c.cfg.pageSize)
    && FilesOk(c.files, c.cfg.pageSize) && Tight(c)
    && HistPart(c)
    && forall k :: RedoPage(c, m, k)
  }

  // ---------------------------------------------------------------- one page write

  lemma HoldsMore(log: seq<Rec>, k: PageKey, n: nat, dpt: map<PageKey, nat>, ps: nat)
    requires ps >= HEADER_SIZE && LogInv(log, ps) && n < |Upd(log, k)| && CkptOk(log, k, n) && DptCovers(dpt, log, k, n)
    ensures CkptOk(log, k, n + 1) && DptCovers(dpt, log, k, n + 1)
  {
    if n + 1 < |Upd(log, k)| {
      UpdLsnsIncrease(log, k, n, n + 1, ps);
      forall i | 0 <= i < |log| && log[i].body.EndCkpt? && Upd(log, k)[n + 1].lsn < log[i].lsn
        ensures DptCovers(log[i].body.dpt, log, k, n + 1)
      {
        assert DptCovers(log[i].body.dpt, log, k, n);
      }
    }
  }

  /** The pages after one write, when the written page still holds a prefix of its history. */
  ghost predicate RedoPages(c: Core, m: nat) {
    && m <= |c.wal|
    && c.cfg.pageSize >= HEADER_SIZE && LogInv(c.wal, c.cfg.pageSize)
    && FilesOk(c.files, c.cfg.pageSize) && Tight(c)
    && HistOk(c)
    && forall k :: RedoPage(c, m, k)
  }

  lemma RedoMark(c: Core, m: nat)
    requires RedoPages(c, m)
    ensures RedoInv(Mark(c), m)
  {
    hide FilesOk, LogInv, HoldsFirst, Tight, DptCovers;
    forall k ensures PageOk(c.wal, c.files, c.cfg.pageSize, k) {
      assert RedoPage(c, m, k);
      var n: nat :| RedoHolds(c, m, k, n);
    }
    var c' := Mark(c);
    assert Tight(c') by {
      TightOf(c, c');
    }
    forall k ensures RedoPage(c', m, k) {
      assert RedoPage(c, m, k);
      var n: nat :| RedoHolds(c, m, k, n);
      assert RedoHolds(c', m, k, n);
    }
  }

  lemma TightOf(c: Core, c': Core)
    requires Tight(c) && c'.files == c.files && c'.numPages == c.numPages
    ensures Tight(c')
  {
  }

  /** Writing a page that then holds the first n updates of its history. */
  lemma RedoWrite(c: Core, m: nat, k: PageKey, data: Bytes, n: nat)
    requires RedoInv(c, m) && k.file in c.files && k.pid <= NumPages(c, k.file) && |data| == c.cfg.pageSize
    requires |Upd(c.wal[..m], k)| <= n <= |Upd(c.wal, k)| && CkptOk(c.wal, k, n) && DptCovers(c.dpt, c.wal, k, n)
    requires data == Replay(Upd(c.wal, k)[..n], Zeros(c.cfg.pageSize))
    ensures RedoInv(RawWrite(c, k, data), m)
  {
    hide CkptOk, DptCovers, LogInv;
    var c2 := RawWrite(c, k, data);
    var c1 := c2.(hist := c.hist);
    assert c2 == Mark(c1);
    forall j ensures RedoPage(c1, m, j) {
      PutPageEffect(c.files, c.cfg.pageSize, k, data, j);
      if j == k {
        assert RedoHolds(c1, m, k, n);
      } else {
        assert RedoPage(c, m, j);
        var i: nat :| RedoHolds(c, m, j, i);
        assert RedoHolds(c1, m, j, i);
      }
    }
    WrittenFiles(c, k, data);
    RedoMark(c1, m);
  }

  lemma WrittenFiles(c: Core, k: PageKey, data: Bytes)
    requires Tight(c) && FilesOk(c.files, c.cfg.pageSize)
    requires k.file in c.files && k.pid <= NumPages(c, k.file) && |data| == c.cfg.pageSize
    ensures Tight(RawWrite(c, k, data)) && FilesOk(RawWrite(c, k, data).files, c.cfg.pageSize)
  {
  }

  /** Recovery's durable states so far are kept, and the new ones have the same log and master. */
  ghost predicate HistGrows(c: Core, c': Core) {
    && c.hist <= c'.hist
    && forall j :: |c.hist| <= j < |c'.hist| ==> c'.hist[j].wal == c.wal && c'.hist[j].master == c.master
  }

  /** A step that shows no new page content. */
  ghost predicate SamePages(c: Core, c': Core) {
    && HistGrows(c, c')
    && c' == c.(files := c'.files, numPages := c'.numPages, hist := c'.hist)
    && forall k :: DiskPage(c'.files, c.cfg.pageSize, k) == DiskPage(c.files, c.cfg.pageSize, k)
  }

  lemma RedoSamePages(c: Core, c1: Core, m: nat)
    requires RedoInv(c, m) && SamePages(c, c1) && FilesOk(c1.files, c.cfg.pageSize) && Tight(c1) && HistOk(c1)
    ensures RedoPages(c1, m)
  {
    hide CkptOk, DptCovers, LogInv, FilesOk, Tight, HistOk, DiskPage;
    forall k ensures RedoPage(c1, m, k) {
      assert RedoPage(c, m, k);
      var n: nat :| RedoHolds(c, m, k, n);
      assert RedoHolds(c1, m, k, n);
    }
  }

  lemma RedoCreate(c: Core, m: nat, f: string)
    requires RedoInv(c, m)
    ensures RedoInv(CreateFile(c, f), m) && SamePages(c, CreateFile(c, f)) && f in CreateFile(c, f).files
  {
    if f !in c.files {
      var c1 := c.(files := c.files[f := []], numPages := c.numPages[f := 0]);
      RedoSamePages(c, c1, m);
      RedoMark(c1, m);
    }
  }

  /** Growing a file with zero pages shows no new content. */
  lemma {:induction false} RedoZeros(c: Core, m: nat, f: string, n: nat)
    requires RedoInv(c, m) && f in c.files && ValidFileId(f)
    ensures var c' := WriteZeros(c, f, n);
            RedoInv(c', m) && SamePages(c, c') && f in c'.files && NumPages(c', f) == NumPages(c, f) + n
    decreases n
  {
    hide RedoInv, RawWrite, SamePages;
    if n == 0 {
      SamePagesSelf(c);
    } else {
      var k := PageKey(f, NumPages(c, f));
      var c1 := RawWrite(c, k, Zeros(c.cfg.pageSize));
      assert c1 == DiskWrite(c, k, Zeros(c.cfg.pageSize)).0;
      RedoGrow(c, m, k);
      RedoZeros(c1, m, f, n - 1);
      SamePagesThen(c, c1, WriteZeros(c, f, n));
    }
  }

  lemma RedoGrow(c: Core, m: nat, k: PageKey)
    requires RedoInv(c, m) && k.file in c.files && k.pid == NumPages(c, k.file)
    ensures var c' := RawWrite(c, k, Zeros(c.cfg.pageSize));
            && RedoInv(c', m) && SamePages(c, c') && c'.cfg == c.cfg
            && k.file in c'.files && NumPages(c', k.file) == NumPages(c, k.file) + 1
  {
    hide LogInv, CrashInv, HoldsFirst, DptCovers;
    var z := Zeros(c.cfg.pageSize);
    var c' := RawWrite(c, k, z);
    forall j ensures DiskPage(c'.files, c.cfg.pageSize, j) == DiskPage(c.files, c.cfg.pageSize, j) {
      PutPageEffect(c.files, c.cfg.pageSize, k, z, j);
    }
    var c1 := c'.(hist := c.hist);
    WrittenFiles(c, k, z);
    RedoSamePages(c, c1, m);
    RedoMark(c1, m);
  }

  lemma SamePagesSelf(c: Core)
    ensures SamePages(c, c)
  {
  }

  lemma SamePagesThen(c: Core, c1: Core, c2: Core)
    requires SamePages(c, c1) && SamePages(c1, c2)
    ensures SamePages(c, c2)
  {
    hide DiskPage;
  }

  lemma RedoEnsure(c: Core, m: nat, k: PageKey)
    requires RedoInv(c, m) && ValidFileId(k.file)
    ensures var c' := EnsurePage(c, k);
            RedoInv(c', m) && SamePages(c, c') && k.file in c'.files && k.pid < NumPages(c', k.file)
  {
    hide RedoInv, SamePages, WriteZeros, NumPages;
    RedoCreate(c, m, k.file);
    var c1 := if FileExists(c, k.file) then c else CreateFile(c, k.file);
    assert c1 == CreateFile(c, k.file);
    RedoZeros(c1, m, k.file, MissingPages(c1, k));
    SamePagesThen(c, c1, EnsurePage(c, k));
  }

  // ---------------------------------------------------------------- one record

  /** A page on disk that holds n > 0 updates is in its file. */
  lemma HeldOnDisk(c: Core, m: nat, k: PageKey, n: nat)
    requires RedoInv(c, m) && RedoHolds(c, m, k, n) && n > 0 && ValidFileId(k.file)
    ensures FileExists(c, k.file) && k.pid < NumPages(c, k.file)
  {
    ReplayLsn(c.wal, k, n, c.cfg.pageSize);
  }

  lemma UpdateKey(log: seq<Rec>, i: nat, ps: nat)
    requires ps >= HEADER_SIZE && LogInv(log, ps) && i < |log| && log[i].body.Update?
    ensures ValidFileId(log[i].body.key.file)
  {
    RecAt(log, i, ps);
  }

  /** A skipped record is already in its page. */
  lemma RedoSkips(c: Core, m: nat, n: nat)
    requires RedoInv(c, m) && m < |c.wal| && c.wal[m].body.Update?
    requires RedoHolds(c, m, c.wal[m].body.key, n) && n > |Upd(c.wal[..m], c.wal[m].body.key)|
    ensures RedoRec(c, c.wal[m]) == c
  {
    hide LogInv, HistPart, Tight, FilesOk, DptCovers, CkptOk, Replay, EnsurePage, ApplyRec;
    var r := c.wal[m];
    var k := r.body.key;
    UpdAt(c.wal, m);
    UpdateKey(c.wal, m, c.cfg.pageSize);
    HeldOnDisk(c, m, k, n);
    ReplayLsn(c.wal, k, n, c.cfg.pageSize);
    var j := |Upd(c.wal[..m], k)|;
    if j < n - 1 {
      UpdLsnsIncrease(c.wal, k, j, n - 1, c.cfg.pageSize);
    }
  }

  /** pageLSN of a page that lacks record m is below the record's LSN, zero LSNs apart. */
  lemma MissingLsn(c: Core, m: nat, n: nat)
    requires RedoInv(c, m) && m < |c.wal| && c.wal[m].body.Update?
    requires RedoHolds(c, m, c.wal[m].body.key, n) && n == |Upd(c.wal[..m], c.wal[m].body.key)|
    ensures var k := c.wal[m].body.key; var p := DiskPage(c.files, c.cfg.pageSize, k);
            && |p| == c.cfg.pageSize
            && (PageLsn(p) < c.wal[m].lsn || (m == 0 && c.wal[m].lsn == 0 && p == Zeros(c.cfg.pageSize)))
  {
    var r, ps := c.wal[m], c.cfg.pageSize;
    var k := r.body.key;
    UpdAt(c.wal, m);
    ReplayLsn(c.wal, k, n, ps);
    hide Upd, CrashInv, HistPart, Tight, FilesOk;
    if n > 0 {
      UpdLsnsIncrease(c.wal, k, n - 1, n, ps);
    } else if m > 0 {
      LsnsIncrease(c.wal, 0, m, ps);
    }
  }

  /** Applying record m to a page that has exactly the earlier updates. */
  lemma RedoApply(c: Core, m: nat, n: nat)
    requires RedoInv(c, m) && m < |c.wal| && c.wal[m].body.Update?
    requires RedoHolds(c, m, c.wal[m].body.key, n) && n == |Upd(c.wal[..m], c.wal[m].body.key)|
    requires FileExists(c, c.wal[m].body.key.file) && c.wal[m].body.key.pid < NumPages(c, c.wal[m].body.key.file)
    ensures var c' := ApplyRec(c, c.wal[m]);
            && RedoInv(c', m) && HistGrows(c, c')
            && c' == c.(files := c'.files, numPages := c'.numPages, hist := c'.hist)
            && RedoHolds(c', m, c.wal[m].body.key, n + 1)
  {
    hide LogInv, HistPart, Tight, FilesOk, CrashInv, CkptOk;
    var r, ps := c.wal[m], c.cfg.pageSize;
    var k := r.body.key;
    var us := Upd(c.wal, k);
    UpdAt(c.wal, m);
    HoldsMore(c.wal, k, n, c.dpt, ps);
    var data := Patch(DiskPage(c.files, ps, k), r);
    assert us[..n + 1] == us[..n] + [us[n]];
    assert Front(us[..n + 1]) == us[..n];
    assert data == Replay(us[..n + 1], Zeros(ps));
    RedoWrite(c, m, k, data, n + 1);
    PutPageEffect(c.files, ps, k, data, k);
  }

  /** Record m + 1 done, when the page of record m has it. */
  lemma RedoAdvance(c: Core, m: nat)
    requires RedoInv(c, m) && m < |c.wal|
    requires c.wal[m].body.Update? ==> exists n: nat :: RedoHolds(c, m, c.wal[m].body.key, n) && n > |Upd(c.wal[..m], c.wal[m].body.key)|
    ensures RedoInv(c, m + 1)
  {
    hide LogInv, HistPart, HoldsFirst, DptCovers, FilesOk, Tight;
    var m' := m + 1;
    forall k ensures RedoPage(c, m', k) {
      assert RedoPage(c, m, k);
      if c.wal[m].body.Update? && c.wal[m].body.key == k {
        UpdAt(c.wal, m);
        var n: nat :| RedoHolds(c, m, k, n) && n > |Upd(c.wal[..m], k)|;
        assert RedoHolds(c, m + 1, k, n);
      } else {
        UpdSkip(c.wal, m, k);
        var n: nat :| RedoHolds(c, m, k, n);
        assert RedoHolds(c, m + 1, k, n);
      }
    }
  }

  /** What one step, or all, of redo does to the rest of the engine. */
  ghost predicate OnlyPages(c: Core, c': Core) {
    && HistGrows(c, c')
    && c' == c.(files := c'.files, numPages := c'.numPages, hist := c'.hist)
  }

  lemma RedoStep(c: Core, m: nat)
    requires RedoInv(c, m) && m < |c.wal| && (m == 0 ==> !LostZero(c.wal, c.files, c.cfg.pageSize))
    ensures RedoInv(RedoRec(c, c.wal[m]), m + 1) && OnlyPages(c, RedoRec(c, c.wal[m]))
  {
    hide LogInv, HistPart, FilesOk, ApplyRec, EnsurePage, HoldsFirst, PageLsn, DiskPage, Upd;
    var r := c.wal[m];
    if !r.body.Update? {
      RedoAdvance(c, m);
      return;
    }
    var k := r.body.key;
    UpdateKey(c.wal, m, c.cfg.pageSize);
    assert RedoPage(c, m, k);
    var n: nat :| RedoHolds(c, m, k, n);
    if n > |Upd(c.wal[..m], k)| {
      RedoSkips(c, m, n);
      RedoAdvance(c, m);
      return;
    }
    UpdAt(c.wal, m);
    if FileExists(c, k.file) && k.pid < NumPages(c, k.file) {
      MissingLsn(c, m, n);
      RedoApply(c, m, n);
      RedoAdvance(ApplyRec(c, r), m);
    } else {
      RedoEnsure(c, m, k);
      var c1 := EnsurePage(c, k);
      assert RedoHolds(c1, m, k, n) by {
        HoldsSamePages(c, c1, m, k, n);
      }
      RedoApply(c1, m, n);
      RedoAdvance(ApplyRec(c1, r), m);
    }
  }

  lemma HoldsSamePages(c: Core, c1: Core, m: nat, k: PageKey, n: nat)
    requires m <= |c.wal| && RedoHolds(c, m, k, n) && SamePages(c, c1)
    ensures RedoHolds(c1, m, k, n)
  {
  }

  // ---------------------------------------------------------------- all of redo

  lemma OnlyPagesThen(c: Core, c1: Core, c2: Core)
    requires OnlyPages(c, c1) && OnlyPages(c1, c2)
    ensures OnlyPages(c, c2)
  {
  }

  lemma {:induction false} RedoPrefix(c: Core, m: nat)
    requires RedoInv(c, 0) && m <= |c.wal| && !LostZero(c.wal, c.files, c.cfg.pageSize)
    ensures RedoInv(RedoAll(c, c.wal[..m]), m) && OnlyPages(c, RedoAll(c, c.wal[..m]))
  {
    hide RedoInv, OnlyPages, RedoRec, LostZero;
    if m == 0 {
      OnlyPagesSelf(c);
    } else {
      RedoPrefix(c, m - 1);
      var c1 := RedoAll(c, c.wal[..m - 1]);
      assert Front(c.wal[..m]) == c.wal[..m - 1] && Last(c.wal[..m]) == c.wal[m - 1];
      assert c1.wal == c.wal by {
        OnlyPagesWal(c, c1);
      }
      if m == 1 {
        assert c1 == c;
      }
      RedoStep(c1, m - 1);
      OnlyPagesThen(c, c1, RedoAll(c, c.wal[..m]));
    }
  }

  lemma OnlyPagesSelf(c: Core)
    ensures OnlyPages(c, c)
  {
  }

  lemma OnlyPagesWal(c: Core, c': Core)
    requires OnlyPages(c, c')
    ensures c'.wal == c.wal && c'.cfg == c.cfg
  {
  }

  /** The engine when redo starts. */
  function Analysed(cfg: Config, hist: seq<Durable>): Core
    requires hist != []
  {
    var c := Restart(cfg, hist);
    var t := Analyse(c.wal, c.master);
    c.(tx := t.tx, dpt := t.dpt)
  }

  ghost predicate AllCrashOk(cfg: Config, hist: seq<Durable>) {
    && cfg.pageSize >= HEADER_SIZE
    && hist != []
    && forall j :: 0 <= j < |hist| ==> CrashInv(hist[j], cfg.pageSize)
  }

  lemma AnalysedInv(cfg: Config, hist: seq<Durable>)
    requires AllCrashOk(cfg, hist)
    ensures RedoInv(Analysed(cfg, hist), 0)
  {
    hide Analyse, CkptOk, DptCovers, LogInv;
    var c := Analysed(cfg, hist);
    assert CrashInv(Last(hist), cfg.pageSize);
    forall k ensures RedoPage(c, 0, k) {
      assert PageOk(c.wal, c.files, cfg.pageSize, k);
      var n: nat :| HoldsFirst(c.wal, c.files, cfg.pageSize, k, n);
      AnalysisDpt(c.wal, c.master, k, n, cfg.pageSize);
      assert RedoHolds(c, 0, k, n);
    }
  }

  /** Redo repeats history: every page ends with the replay of all its durable updates, including
      pages that never reached the disk. */
  lemma RedoRepeatsHistory(cfg: Config, hist: seq<Durable>)
    requires AllCrashOk(cfg, hist) && !LostZero(Last(hist).wal, Last(hist).files, cfg.pageSize)
    ensures var c := Analysed(cfg, hist); var c' := RedoAll(c, c.wal);
            && OnlyPages(c, c') && RedoInv(c', |c.wal|)
            && forall k :: DiskPage(c'.files, cfg.pageSize, k) == Replay(Upd(c.wal, k), Zeros(cfg.pageSize))
  {
    hide LogInv, LostZero, FilesOk, Tight, HistPart, CkptOk, DptCovers, Analyse, RedoAll;
    AnalysedInv(cfg, hist);
    var c := Analysed(cfg, hist);
    assert c.wal[..|c.wal|] == c.wal;
    RedoPrefix(c, |c.wal|);
    var c' := RedoAll(c, c.wal);
    forall k ensures DiskPage(c'.files, cfg.pageSize, k) == Replay(Upd(c.wal, k), Zeros(cfg.pageSize)) {
      assert RedoPage(c', |c.wal|, k);
      var n: nat :| RedoHolds(c', |c.wal|, k, n);
      assert Upd(c.wal, k)[..n] == Upd(c.wal, k);
    }
  }
}
