/** The recovery manager as the source has it: tables, counters and the log buffer updated in
    place, and the three recovery phases as loops over the log. Every method is proved to take
    the engine from one value of the state machine to the next. */
module RecoveryManager {
  import opened Pages
  import opened Log
  import opened Engine
  import opened CoreInvariant
  import opened Analysis
  import opened Redo
  import opened Undo
  import opened Recovery
  import opened AfterRecovery
  import opened DiskSpaceManager

  class Recoverer {
    const disk: Disk
    const logBufferSize: int
    const checkpointInterval: int
    var logBuffer: seq<Rec>
    var txTable: map<int, TxEntry>
    var dirtyPageTable: map<PageKey, nat>
    var nextLsn: nat
    var flushedLsn: int
    var nextXid: nat
    var opsSinceCkpt: nat
    var currentXid: Option<int>

    /** The engine core made of this manager and its disk. */
    ghost function View(): Core
      reads this, disk
    {
      Core(Config(disk.pageSize, logBufferSize, checkpointInterval),
           disk.wal, disk.files, disk.master, disk.hist, disk.filePages,
           logBuffer, txTable, dirtyPageTable, nextLsn, flushedLsn, nextXid, opsSinceCkpt)
    }

    // -------------------------------------------------------------- log buffer

    method FlushLog()
      modifies this, disk
      ensures View() == Engine.FlushLog(old(View())) && currentXid == old(currentXid)
    {
      if logBuffer == [] {
        return;
      }
      var pending := logBuffer;
      for i := 0 to |pending|
        invariant disk.wal == old(disk.wal) + pending[..i]
        invariant disk.hist == old(disk.hist) + AppendStates(old(disk.wal), disk.files, disk.master, pending)[..i]
        invariant View() == old(View()).(wal := disk.wal, hist := disk.hist) && currentXid == old(currentXid)
      {
        disk.LogAppend(pending[i]);
      }
      assert pending[..|pending|] == pending;
      flushedLsn := logBuffer[|logBuffer| - 1].lsn;
      logBuffer := [];
    }

    method FlushLogUpTo(lsn: int)
      modifies this, disk
      ensures View() == Engine.FlushLogUpTo(old(View()), lsn) && currentXid == old(currentXid)
    {
      if lsn <= flushedLsn {
        return;
      }
      FlushLog();
    }

    method EmitWithLsn(lsn: nat, xid: int, body: Body)
      modifies this, disk
      ensures View() == Engine.EmitWithLsn(old(View()), lsn, xid, body) && currentXid == old(currentXid)
    {
      var prev := NO_LSN;
      if xid >= 0 && xid in txTable {
        prev := txTable[xid].lastLsn;
      }
      logBuffer := logBuffer + [Rec(lsn, prev, xid, body)];
      if xid >= 0 && xid in txTable {
        txTable := txTable[xid := txTable[xid].(lastLsn := lsn)];
      }
      assert View() == Buffered(old(View()), lsn, xid, body);
      if |logBuffer| >= logBufferSize {
        FlushLog();
      }
    }

    method Emit(xid: int, body: Body) returns (lsn: nat)
      modifies this, disk
      ensures View() == Engine.Emit(old(View()), xid, body) && lsn == old(nextLsn) && currentXid == old(currentXid)
    {
      lsn := nextLsn;
      nextLsn := nextLsn + 1;
      EmitWithLsn(lsn, xid, body);
    }

    // -------------------------------------------------------------- checkpoints

    method MaybeCheckpoint()
      modifies this, disk
      ensures View() == Engine.MaybeCheckpoint(old(View())) && currentXid == old(currentXid)
    {
      hide Engine.Checkpoint;
      opsSinceCkpt := opsSinceCkpt + 1;
      if opsSinceCkpt >= checkpointInterval {
        Checkpoint();
        opsSinceCkpt := 0;
      }
    }

    method Checkpoint()
      modifies this, disk
      ensures View() == Engine.Checkpoint(old(View())) && currentXid == old(currentXid)
    {
      var beginLsn := Emit(SYS_XID, BeginCkpt);
      var _ := Emit(SYS_XID, EndCkpt(txTable, dirtyPageTable));
      FlushLog();
      disk.WriteMaster(beginLsn);
    }

    // -------------------------------------------------------------- transactions

    method BeginTransaction() returns (xid: nat)
      modifies this, disk
      ensures View() == BeginTx(old(View())) && xid == old(nextXid) && currentXid == old(currentXid)
    {
      hide Engine.MaybeCheckpoint;
      xid := nextXid;
      nextXid := nextXid + 1;
      txTable := txTable[xid as int := TxEntry(Active, NO_LSN)];
      MaybeCheckpoint();
    }

    method Commit(xid: int)
      modifies this, disk
      ensures View() == CommitTx(old(View()), xid) && currentXid == old(currentXid)
    {
      var _ := Emit(xid, Body.Commit);
      FlushLog();
      if xid in txTable {
        txTable := txTable[xid := txTable[xid].(status := Committed)];
      }
      var _ := Emit(xid, End);
      FlushLog();
      txTable := txTable - {xid};
    }

    // -------------------------------------------------------------- update logging

    method LogPageUpdate(k: PageKey, before: Option<Bytes>, after: Bytes) returns (page: Bytes)
      requires |after| >= HEADER_SIZE && nextLsn < LSN_LIMIT
      modifies this, disk
      ensures View() == Engine.LogPageUpdate(old(View()), old(currentXid), k, before, after).0
      ensures page == Engine.LogPageUpdate(old(View()), old(currentXid), k, before, after).1
      ensures currentXid == old(currentXid)
    {
      hide Stamp, DiffRange, Engine.EmitWithLsn, Engine.MaybeCheckpoint, AddDirty, PatchAt, RestoreAt, BeforeImage, Fit, Zeros;
      if currentXid.None? {
        return after;
      }
      var xid, lsn := currentXid.value, nextLsn;
      nextLsn := nextLsn + 1;
      page := Stamp(after, lsn);
      var beforeFull := if before.Some? then before.value else Zeros(|page|);
      if |beforeFull| != |page| {
        beforeFull := Fit(beforeFull, |page|);
      }
      FullBefore(before, |page|);
      var window := ComputeDiffRange(beforeFull, page);
      if window.None? {
        return;
      }
      DiffWindow(beforeFull, page);
      var (lo, hi) := window.value;
      LogUpdate(xid, lsn, k, Update(k, lo, beforeFull[lo..hi], page[lo..hi]));
    }

    /** The update record, the page's entry in the dirty page table, and the checkpoint that may be due. */
    method LogUpdate(xid: int, lsn: nat, k: PageKey, body: Body)
      modifies this, disk
      ensures View() == Engine.MaybeCheckpoint(AddDirty(Engine.EmitWithLsn(old(View()), lsn, xid, body), k, lsn))
      ensures currentXid == old(currentXid)
    {
      hide Engine.EmitWithLsn, Engine.MaybeCheckpoint;
      EmitWithLsn(lsn, xid, body);
      if k !in dirtyPageTable {
        dirtyPageTable := dirtyPageTable[k := lsn];
      }
      MaybeCheckpoint();
    }

    method PageFlushed(k: PageKey)
      modifies this
      ensures View() == Engine.PageFlushed(old(View()), k) && currentXid == old(currentXid)
    {
      dirtyPageTable := dirtyPageTable - {k};
    }

    // -------------------------------------------------------------- recovery

    /** Start-up: counters from the log on disk, then the three phases, before any input. `closed` is
        the order in which interrupted commits got their end record. */
    constructor (disk: Disk, logBufferSize: int, checkpointInterval: int)
      requires disk.hist != [] && Last(disk.hist) == Durable(disk.wal, disk.files, disk.master)
      requires disk.filePages == map f | f in disk.files :: |disk.files[f]|
      requires disk.pageSize >= HEADER_SIZE && CoreInvariant.FilesOk(disk.files, disk.pageSize)
      requires Startable(disk.wal, disk.master, disk.pageSize)
      modifies disk
      ensures this.disk == disk && this.logBufferSize == logBufferSize && this.checkpointInterval == checkpointInterval
      ensures currentXid == None
      ensures var cfg := Config(disk.pageSize, logBufferSize, checkpointInterval);
              exists xs :: ClosingOrder(cfg, old(disk.hist), xs) && View() == Recover(cfg, old(disk.hist), xs)
    {
      this.disk, this.logBufferSize, this.checkpointInterval := disk, logBufferSize, checkpointInterval;
      logBuffer, txTable, dirtyPageTable, opsSinceCkpt, currentXid := [], map[], map[], 0, None;
      nextLsn := if disk.wal == [] then 0 else disk.wal[|disk.wal| - 1].lsn + 1;
      flushedLsn := if disk.wal == [] then NO_LSN else disk.wal[|disk.wal| - 1].lsn;
      nextXid := 0;
      new;
      var maxXid := LargestXid(disk.wal);
      nextXid := maxXid + 1;
      ghost var cfg := Config(disk.pageSize, logBufferSize, checkpointInterval);
      assert View() == Restart(cfg, disk.hist);
      ghost var xs := RunRecovery(cfg, disk.hist);
    }

    method RunRecovery(ghost cfg: Config, ghost hist: seq<Durable>) returns (ghost xs: seq<int>)
      requires hist != [] && View() == Restart(cfg, hist)
      requires cfg.pageSize >= HEADER_SIZE && CoreInvariant.FilesOk(disk.files, cfg.pageSize)
      requires Startable(disk.wal, disk.master, cfg.pageSize)
      modifies this, disk
      ensures ClosingOrder(cfg, hist, xs) && View() == Recover(cfg, hist, xs) && currentXid == old(currentXid)
    {
      hide UndoAll, CloseAll, RedoAll, Analyse, LsnsAscend, RecordsFit, Chains;
      var records := disk.wal;
      if records == [] {
        NoDpt(disk.master);
        return [];
      }
      PhaseAnalysis(records, disk.master);
      assert View() == Analysed(cfg, hist);
      PhaseRedo(records);
      ghost var redone := View();
      ghost var _ := PhaseUndo(records);
      ghost var undone := View();
      UndoKeepsOthers(redone, records, UndoLosers(redone.tx));
      xs := CloseCommitted();
      FlushLog();
    }

    /** Transactions that committed but crashed before their end record get one now. */
    method CloseCommitted() returns (ghost xs: seq<int>)
      modifies this, disk
      ensures View() == CloseAll(old(View()), xs) && currentXid == old(currentXid)
      ensures forall x :: x in xs <==> x in old(txTable) && old(txTable)[x].status == Committed
      ensures forall i, j :: 0 <= i < j < |xs| ==> xs[i] != xs[j]
    {
      hide CloseTx, Engine.Emit;
      ghost var start := View();
      xs := [];
      var todo := set x | x in txTable && txTable[x].status == Committed;
      while todo != {}
        invariant View() == CloseAll(start, xs)
        invariant forall x :: x in start.tx && start.tx[x].status == Committed <==> x in todo || x in xs
        invariant forall x :: x in todo ==> x !in xs
        invariant forall i, j :: 0 <= i < j < |xs| ==> xs[i] != xs[j]
        invariant currentXid == old(currentXid)
        decreases todo
      {
        ghost var _ := Member(todo);
        var x :| x in todo;
        CloseSnoc(start, xs, x);
        Close(x);
        xs := xs + [x];
        todo := todo - {x};
      }
    }

    method Close(xid: int)
      modifies this, disk
      ensures View() == CloseTx(old(View()), xid) && currentXid == old(currentXid) && disk.files == old(disk.files)
    {
      CloseTxPages(View(), xid);
      var _ := Emit(xid, End);
      txTable := txTable - {xid};
    }

    method PhaseAnalysis(records: seq<Rec>, beginCkptLsn: int)
      modifies this`txTable, this`dirtyPageTable
      ensures txTable == Analyse(records, beginCkptLsn).tx && dirtyPageTable == Analyse(records, beginCkptLsn).dpt
    {
      var end := FindCheckpoint(records, beginCkptLsn);
      var scanFrom := NO_LSN;
      txTable, dirtyPageTable := map[], map[];
      if end.Some? {
        txTable, dirtyPageTable := records[end.value].body.tx, records[end.value].body.dpt;
        scanFrom := records[end.value].lsn;
      }
      for i := 0 to |records|
        invariant Tables(txTable, dirtyPageTable) == Scan(Snapshot(records, end), records[..i], scanFrom)
      {
        Snoc(records[..i], records[i]);
        assert records[..i + 1] == records[..i] + [records[i]];
        if records[i].lsn <= scanFrom {
          continue;
        }
        AnalyseRecord(records[i]);
      }
      assert records[..|records|] == records;
    }

    method AnalyseRecord(rec: Rec)
      modifies this`txTable, this`dirtyPageTable
      ensures Tables(txTable, dirtyPageTable) == AnalyseRec(Tables(old(txTable), old(dirtyPageTable)), rec)
    {
      match rec.body
      case Update(key, _, _, _) =>
        if rec.xid !in txTable {
          txTable := txTable[rec.xid := TxEntry(Active, NO_LSN)];
        }
        txTable := txTable[rec.xid := txTable[rec.xid].(status := Active)];
        txTable := txTable[rec.xid := txTable[rec.xid].(lastLsn := rec.lsn)];
        if key !in dirtyPageTable {
          dirtyPageTable := dirtyPageTable[key := rec.lsn];
        }
      case Commit =>
        if rec.xid in txTable {
          txTable := txTable[rec.xid := TxEntry(Committed, rec.lsn)];
        }
      case End =>
        txTable := txTable - {rec.xid};
      case _ =>
    }

    method EnsurePageExists(k: PageKey)
      requires ValidFileId(k.file)
      requires CoreInvariant.FilesOk(disk.files, disk.pageSize)
      modifies disk
      ensures View() == EnsurePage(old(View()), k) && CoreInvariant.FilesOk(disk.files, disk.pageSize)
    {
      var present := disk.FileExists(k.file);
      if !present {
        disk.CreateFile(k.file, View());
      }
      GrowFile(k);
    }

    method GrowFile(k: PageKey)
      requires ValidFileId(k.file) && k.file in disk.files && CoreInvariant.FilesOk(disk.files, disk.pageSize)
      modifies disk
      ensures View() == WriteZeros(old(View()), k.file, MissingPages(old(View()), k))
      ensures CoreInvariant.FilesOk(disk.files, disk.pageSize)
    {
      hide DiskWrite, Zeros;
      var pid := disk.NumPages(k.file);
      while pid <= k.pid
        invariant pid == Engine.NumPages(View(), k.file) && k.file in disk.files
        invariant CoreInvariant.FilesOk(disk.files, disk.pageSize)
        invariant WriteZeros(View(), k.file, MissingPages(View(), k))
               == WriteZeros(old(View()), k.file, MissingPages(old(View()), k))
      {
        GrowByOne(View(), k.file, MissingPages(View(), k));
        var _ := disk.WritePage(PageKey(k.file, pid), Zeros(disk.pageSize), View());
        pid := disk.NumPages(k.file);
      }
    }

    /** Redo's page patch: one slice assignment. */
    method ApplyRecord(rec: Rec)
      requires rec.body.Update? && rec.body.off + |rec.body.after| <= disk.pageSize
      requires CoreInvariant.FilesOk(disk.files, disk.pageSize)
      modifies disk
      ensures View() == ApplyRec(old(View()), rec) && CoreInvariant.FilesOk(disk.files, disk.pageSize)
    {
      var key, off, after := rec.body.key, rec.body.off, rec.body.after;
      var data := disk.ReadPage(key, View());
      if data.None? {
        return;
      }
      var page := data.value[..off] + after + data.value[off + |after|..];
      assert page == Patch(data.value, rec);
      var _ := disk.WritePage(key, page, View());
      WriteKeepsSizes(old(View()), key, page);
    }

    method PhaseRedo(records: seq<Rec>)
      requires RecordsFit(records, disk.pageSize) && disk.pageSize >= HEADER_SIZE
      requires CoreInvariant.FilesOk(disk.files, disk.pageSize)
      modifies disk
      ensures View() == RedoAll(old(View()), records) && CoreInvariant.FilesOk(disk.files, disk.pageSize)
    {
      if dirtyPageTable == map[] {
        RedoNothing(View(), records);
        return;
      }
      NotEmpty(dirtyPageTable);
      ghost var _ := Least(dirtyPageTable.Values);
      var minRecLsn :| minRecLsn in dirtyPageTable.Values && forall v :: v in dirtyPageTable.Values ==> minRecLsn <= v;
      for i := 0 to |records|
        invariant View() == RedoAll(old(View()), records[..i])
        invariant CoreInvariant.FilesOk(disk.files, disk.pageSize)
      {
        Snoc(records[..i], records[i]);
        assert records[..i + 1] == records[..i] + [records[i]];
        if !records[i].body.Update? || records[i].lsn < minRecLsn {
          assert records[i].body.Update? && records[i].body.key in dirtyPageTable ==>
              dirtyPageTable[records[i].body.key] in dirtyPageTable.Values;
          continue;
        }
        RedoRecord(records[i]);
      }
      assert records[..|records|] == records;
    }

    method RedoRecord(rec: Rec)
      requires rec.body.Update? && RecordsFit([rec], disk.pageSize) && disk.pageSize >= HEADER_SIZE
      requires CoreInvariant.FilesOk(disk.files, disk.pageSize)
      modifies disk
      ensures View() == RedoRec(old(View()), rec) && CoreInvariant.FilesOk(disk.files, disk.pageSize)
    {
      hide EnsurePage, ApplyRec;
      var key := rec.body.key;
      assert [rec][0] == rec;
      if key !in dirtyPageTable {
        return;
      }
      if rec.lsn < dirtyPageTable[key] {
        return;
      }
      var present := disk.FileExists(key.file);
      var n := disk.NumPages(key.file);
      if present && key.pid < n {
        var data := disk.ReadPage(key, View());
        if data.None? || PageLsn(data.value) >= rec.lsn {
          return;
        }
      } else {
        EnsurePageExists(key);
      }
      ApplyRecord(rec);
    }

    /** Undo's page patch: only the bytes the record changed. */
    method RestoreRecord(rec: Rec)
      requires rec.body.Update? && RecordsFit([rec], disk.pageSize)
      requires CoreInvariant.FilesOk(disk.files, disk.pageSize)
      modifies disk
      ensures View() == RestorePage(old(View()), rec) && CoreInvariant.FilesOk(disk.files, disk.pageSize)
    {
      assert [rec][0] == rec;
      var key := rec.body.key;
      var present := disk.FileExists(key.file);
      var n := disk.NumPages(key.file);
      if present && key.pid < n {
        var data := disk.ReadPage(key, View());
        if data.Some? {
          var page := RestoreBytes(data.value, rec.body.off, rec.body.before, rec.body.after);
          var _ := disk.WritePage(key, page, View());
          WriteKeepsSizes(old(View()), key, page);
        }
      }
    }

    /** The undo loop: always the largest LSN still to be undone, over the chains of all losers.
        `handled` lists the records it visits. */
    method PhaseUndo(records: seq<Rec>) returns (ghost handled: seq<Rec>)
      requires disk.pageSize >= HEADER_SIZE
      requires LsnsAscend(records) && RecordsFit(records, disk.pageSize) && Chains(records, txTable)
      requires CoreInvariant.FilesOk(disk.files, disk.pageSize)
      modifies this, disk
      ensures View() == UndoAll(old(View()), records, UndoLosers(old(txTable))) && currentXid == old(currentXid)
      ensures handled == LoserUpdates(records, UndoLosers(old(txTable)))
    {
      hide UndoRec, UndoAll, LoserUpdates, Chains, RecordsFit, LsnsAscend, OwnChain, LastLsn, CoreInvariant.FilesOk;
      ghost var tx, losers, ps := txTable, UndoLosers(txTable), disk.pageSize;
      handled := [];
      var lsnIndex := IndexByLsn(records);
      var toUndo := map x | x in txTable && txTable[x].status == Active && txTable[x].lastLsn != NO_LSN :: txTable[x].lastLsn;
      ghost var p: nat := |records|;
      assert records[..p] == records;
      ChainStart(txTable, toUndo, records);
      while toUndo != map[]
        invariant 0 <= p <= |records| && ChainHeads(toUndo, records[..p], losers)
        invariant UndoAll(View(), records[..p], losers) == UndoAll(old(View()), records, losers)
        invariant handled + LoserUpdates(records[..p], losers) == LoserUpdates(records, losers)
        invariant CoreInvariant.FilesOk(disk.files, disk.pageSize) && disk.pageSize == ps
        invariant currentXid == old(currentXid)
        decreases p
      {
        ghost var _ := Greatest(toUndo);
        var xid :| xid in toUndo && forall y :: y in toUndo ==> toUndo[y] <= toUndo[xid];
        LoserChain(records, tx, xid);
        ghost var i := ChainRecord(records, p, toUndo, losers, xid, ps);
        var rec := lsnIndex[toUndo[xid]];
        UndoReaches(View(), records, p, i, losers);
        UndoRecord(rec, losers);
        if rec.prev == NO_LSN {
          toUndo := toUndo - {xid};
        } else {
          toUndo := toUndo[xid := rec.prev];
        }
        NextHeads(records, p, i, toUndo, losers, xid);
        handled, p := handled + [rec], i;
      }
      NoHeads(View(), records[..p], losers);
    }

    /** One pass of the loop; the end record goes out when the chain is exhausted. */
    method UndoRecord(rec: Rec, ghost losers: set<int>)
      requires rec.body.Update? && RecordsFit([rec], disk.pageSize) && rec.xid in losers
      requires CoreInvariant.FilesOk(disk.files, disk.pageSize)
      modifies this, disk
      ensures View() == UndoRec(old(View()), rec, losers) && CoreInvariant.FilesOk(disk.files, disk.pageSize)
      ensures currentXid == old(currentXid)
    {
      hide RestorePage, CloseTx;
      RestoreRecord(rec);
      if rec.prev == NO_LSN {
        Close(rec.xid);
      }
    }
  }

  lemma FullBefore(before: Option<Bytes>, n: nat)
    ensures var b := if before.Some? then before.value else Zeros(n);
            BeforeImage(before, n) == if |b| != n then Fit(b, n) else b
  {
  }

  method IndexByLsn(records: seq<Rec>) returns (index: map<int, Rec>)
    requires LsnsAscend(records)
    ensures forall j :: 0 <= j < |records| ==> records[j].lsn in index && index[records[j].lsn] == records[j]
  {
    index := map[];
    for i := 0 to |records|
      invariant forall j :: 0 <= j < i ==> records[j].lsn in index && index[records[j].lsn] == records[j]
    {
      index := index[records[i].lsn := records[i]];
    }
  }

  /** Undo's byte loop over one page. */
  method RestoreBytes(p: Bytes, off: nat, before: Bytes, after: Bytes) returns (q: Bytes)
    requires off + |before| <= |p|
    ensures q == RestoreAt(p, off, before, after)
  {
    var data := new byte[|p|](i requires 0 <= i < |p| => p[i]);
    for i := 0 to |before|
      invariant forall j :: 0 <= j < |p| ==>
        data[j] == if off <= j < off + i && Differs(before, after, j - off) then before[j - off] else p[j]
    {
      if i >= |after| || before[i] != after[i] {
        data[off + i] := before[i];
      }
    }
    return data[..];
  }

  // ---------------------------------------------------------------- undo chains

  ghost predicate LsnsAscend(log: seq<Rec>) {
    forall i, j :: 0 <= i < j < |log| ==> log[i].lsn < log[j].lsn
  }

  /** The records of x are updates linked by their prev fields. */
  ghost predicate OwnChain(log: seq<Rec>, x: int) {
    forall i :: 0 <= i < |log| && log[i].xid == x ==> log[i].body.Update? && log[i].prev == LastLsn(log[..i], x)
  }

  /** The table leads to the last record of every loser, and from there back along its chain. */
  ghost predicate Chains(log: seq<Rec>, tx: map<int, TxEntry>) {
    forall x :: x in UndoLosers(tx) ==> tx[x].lastLsn == LastLsn(log, x) && OwnChain(log, x)
  }

  /** What recovery relies on when it starts from this log and master record. */
  ghost predicate Startable(log: seq<Rec>, master: int, ps: nat) {
    LsnsAscend(log) && RecordsFit(log, ps) && Chains(log, Analyse(log, master).tx)
  }

  lemma LoserChain(log: seq<Rec>, tx: map<int, TxEntry>, x: int)
    requires Chains(log, tx) && x in UndoLosers(tx)
    ensures OwnChain(log, x)
  {
  }

  /** A crash during a run leaves such a log. */
  lemma RunStartable(d: Durable, ps: nat)
    requires CrashInv(d, ps)
    ensures Startable(d.wal, d.master, ps)
  {
    assert ps >= HEADER_SIZE;
    hide CrashInv, OwnChain, RecordsFit, LsnsAscend, Analyse;
    WalInv(d, ps);
    hide LogInv;
    var tx := Analyse(d.wal, d.master).tx;
    AnalysisTx(d.wal, d.master, ps);
    UndoLosersAre(tx, d.wal, ps);
    LoggedRecordsFit(d.wal, ps);
    LoggedIncreasing(d.wal, ps);
    forall x | x in UndoLosers(tx) ensures tx[x].lastLsn == LastLsn(d.wal, x) && OwnChain(d.wal, x) {
      assert TxEntryOk(tx[x], d.wal, x);
      LoggedChain(d.wal, x, ps);
    }
  }

  lemma LoggedIncreasing(log: seq<Rec>, ps: nat)
    requires ps >= HEADER_SIZE && LogInv(log, ps)
    ensures LsnsAscend(log)
  {
    hide LogInv;
    forall i, j | 0 <= i < j < |log| ensures log[i].lsn < log[j].lsn {
      LsnsIncrease(log, i, j, ps);
    }
  }

  lemma LoggedChain(log: seq<Rec>, x: int, ps: nat)
    requires ps >= HEADER_SIZE && LogInv(log, ps) && x in Losers(log)
    ensures OwnChain(log, x)
  {
    hide LogInv, Losers;
    forall i | 0 <= i < |log| && log[i].xid == x ensures log[i].body.Update? && log[i].prev == LastLsn(log[..i], x) {
      LoserRecord(log, i, ps);
    }
  }

  /** So does a recovery, whatever losers it had to undo. */
  lemma RecoveryStartable(d: Durable, c: Core, ps: nat)
    requires ps >= HEADER_SIZE && LogInv(d.wal, ps) && LeftBehind(d, c)
    ensures Startable(c.wal, c.master, ps)
  {
    hide LogInv, Present, EndsIn;
    SecondTables(d, c, ps);
    LoggedRecordsFit(d.wal, ps);
    LoggedIncreasing(d.wal, ps);
    EndsIncreasing(d.wal, c.wal, Last(d.wal).lsn);
    EndsUpd(d.wal, c.wal, Last(d.wal).lsn, PageKey("", 0));
    hide OnlyEnds, LsnsAscend, Analyse;
    SameRecordsFit(d.wal, c.wal, ps);
  }

  lemma SameRecordsFit(wal: seq<Rec>, log: seq<Rec>, ps: nat)
    requires RecordsFit(wal, ps) && forall i :: 0 <= i < |log| && log[i].body.Update? ==> log[i] in wal
    ensures RecordsFit(log, ps)
  {
  }

  lemma EndsIncreasing(wal: seq<Rec>, log: seq<Rec>, floor: int)
    requires LsnsAscend(wal) && wal != [] && floor == Last(wal).lsn && OnlyEnds(wal, log, floor)
    ensures LsnsAscend(log)
  {
    forall i, j | 0 <= i < j < |log| ensures log[i].lsn < log[j].lsn {
      if i < |wal| <= j {
        assert IsEnd(log[j], floor) && log[i] == wal[i];
        assert wal[i].lsn <= Last(wal).lsn;
      } else if j < |wal| {
        assert log[i] == wal[i] && log[j] == wal[j];
      }
    }
  }

  /** `toUndo` maps every loser with records among `recs` to the last of them. */
  ghost predicate ChainHeads(toUndo: map<int, int>, recs: seq<Rec>, losers: set<int>) {
    && (forall x :: x in toUndo <==> x in losers && LastLsn(recs, x) != NO_LSN)
    && (forall x :: x in toUndo ==> toUndo[x] == LastLsn(recs, x))
  }

  /** The losers' updates, newest first. */
  function LoserUpdates(recs: seq<Rec>, losers: set<int>): seq<Rec> {
    if recs == [] then []
    else (if Last(recs).body.Update? && Last(recs).xid in losers then [Last(recs)] else []) + LoserUpdates(Front(recs), losers)
  }

  /** LSNs decrease strictly. */
  predicate Descending(us: seq<Rec>) {
    forall i, j :: 0 <= i < j < |us| ==> us[i].lsn > us[j].lsn
  }

  /** The undo loop handles each loser update exactly once, in strictly decreasing LSN order. */
  lemma {:induction false} UndoOrder(log: seq<Rec>, losers: set<int>)
    requires LsnsAscend(log)
    ensures Descending(LoserUpdates(log, losers))
    ensures forall u :: u in LoserUpdates(log, losers) <==> u in log && u.body.Update? && u.xid in losers
  {
    hide LsnsAscend, Descending;
    if log == [] {
      NoneDescending();
    } else {
      var front, r := Front(log), Last(log);
      FrontIncreasing(log);
      UndoOrder(front, losers);
      var us := LoserUpdates(front, losers);
      InFront(log);
      if r.body.Update? && r.xid in losers {
        Prepended(us, r);
      } else {
        assert [] + us == us;
      }
    }
  }

  lemma NoneDescending()
    ensures Descending([])
  {
  }

  lemma InFront(log: seq<Rec>)
    requires log != []
    ensures forall u :: u in log <==> u in Front(log) || u == Last(log)
  {
    assert log == Front(log) + [Last(log)];
  }

  lemma Prepended(us: seq<Rec>, r: Rec)
    requires Descending(us) && forall u :: u in us ==> u.lsn < r.lsn
    ensures Descending([r] + us) && forall u :: u in [r] + us <==> u == r || u in us
  {
  }

  lemma FrontIncreasing(log: seq<Rec>)
    requires LsnsAscend(log) && log != []
    ensures LsnsAscend(Front(log)) && forall u :: u in Front(log) ==> u.lsn < Last(log).lsn
  {
    forall u | u in Front(log) ensures u.lsn < Last(log).lsn {
      var j :| 0 <= j < |log| - 1 && log[j] == u;
      assert log[j].lsn < log[|log| - 1].lsn;
    }
  }

  lemma ChainStart(tx: map<int, TxEntry>, toUndo: map<int, int>, log: seq<Rec>)
    requires Chains(log, tx)
    requires toUndo == map x | x in tx && tx[x].status == Active && tx[x].lastLsn != NO_LSN :: tx[x].lastLsn
    ensures ChainHeads(toUndo, log, UndoLosers(tx))
  {
    hide OwnChain;
    forall x | x in toUndo ensures toUndo[x] == LastLsn(log, x) {
      assert x in UndoLosers(tx);
    }
  }

  /** Where the latest record of a transaction is. */
  lemma {:induction false} LastRecord(recs: seq<Rec>, x: int) returns (i: nat)
    requires LastLsn(recs, x) != NO_LSN
    ensures i < |recs| && recs[i].xid == x && recs[i].lsn == LastLsn(recs, x)
    ensures forall j :: i < j < |recs| ==> recs[j].xid != x
  {
    if Last(recs).xid == x {
      i := |recs| - 1;
    } else {
      i := LastRecord(Front(recs), x);
      forall j | i < j < |recs| ensures recs[j].xid != x {
        if j < |recs| - 1 {
          assert Front(recs)[j] == recs[j];
        }
      }
    }
  }

  lemma {:induction false} LastLsnAtLeast(recs: seq<Rec>, j: nat)
    requires LsnsAscend(recs) && j < |recs|
    ensures LastLsn(recs, recs[j].xid) >= recs[j].lsn
  {
    if Last(recs).xid == recs[j].xid {
      assert recs[j].lsn <= recs[|recs| - 1].lsn;
    } else {
      assert Front(recs)[j] == recs[j];
      LastLsnAtLeast(Front(recs), j);
    }
  }

  /** Records nobody else owns do not move a transaction's head. */
  lemma {:induction false} SameHead(recs: seq<Rec>, i: nat, p: nat, x: int)
    requires i <= p <= |recs| && forall j :: i <= j < p ==> recs[j].xid != x
    ensures LastLsn(recs[..p], x) == LastLsn(recs[..i], x)
    decreases p
  {
    if i < p {
      SameHead(recs, i, p - 1, x);
      assert Front(recs[..p]) == recs[..p - 1];
    }
  }

  /** The record behind the largest LSN: an update of its loser, and the last record of any loser. */
  lemma ChainRecord(recs: seq<Rec>, p: nat, toUndo: map<int, int>, losers: set<int>, xid: int, ps: nat) returns (i: nat)
    requires LsnsAscend(recs) && RecordsFit(recs, ps) && p <= |recs| && OwnChain(recs, xid)
    requires ChainHeads(toUndo, recs[..p], losers)
    requires xid in toUndo && forall y :: y in toUndo ==> toUndo[y] <= toUndo[xid]
    ensures i < p && recs[i].lsn == toUndo[xid] && recs[i].xid == xid && recs[i].body.Update?
    ensures forall j :: i < j < p ==> recs[j].xid !in losers
    ensures recs[i].prev == LastLsn(recs[..i], xid) && RecordsFit([recs[i]], ps)
  {
    i := LastRecord(recs[..p], xid);
    forall j | i < j < p ensures recs[j].xid !in losers {
      assert recs[..p][j] == recs[j];
      LastLsnAtLeast(recs[..p], j);
    }
  }

  lemma LoserRecord(recs: seq<Rec>, i: nat, ps: nat)
    requires ps >= HEADER_SIZE && LogInv(recs, ps) && i < |recs| && recs[i].xid in Losers(recs)
    ensures recs[i].body.Update? && recs[i].prev == LastLsn(recs[..i], recs[i].xid)
  {
    UpdaterXid(recs, recs[i].xid, ps);
    RecAt(recs, i, ps);
    PrefixViews(recs, i + 1, PageKey("", 0));
    PrefixViews(recs, i, PageKey("", 0));
    assert Front(recs[..i + 1]) == recs[..i];
  }

  lemma {:induction false} SkipToHead(c: Core, recs: seq<Rec>, p: nat, i: nat, losers: set<int>)
    requires i < p <= |recs| && forall j :: i < j < p ==> recs[j].xid !in losers
    ensures UndoAll(c, recs[..p], losers) == UndoAll(c, recs[..i + 1], losers)
    ensures LoserUpdates(recs[..p], losers) == LoserUpdates(recs[..i + 1], losers)
    decreases p
  {
    if i + 1 < p {
      assert Front(recs[..p]) == recs[..p - 1] && Last(recs[..p]) == recs[p - 1];
      SkipToHead(c, recs, p - 1, i, losers);
    }
  }

  lemma UndoHead(c: Core, recs: seq<Rec>, i: nat, losers: set<int>)
    requires i < |recs| && recs[i].body.Update? && recs[i].xid in losers
    ensures UndoAll(c, recs[..i + 1], losers) == UndoAll(UndoRec(c, recs[i], losers), recs[..i], losers)
    ensures LoserUpdates(recs[..i + 1], losers) == [recs[i]] + LoserUpdates(recs[..i], losers)
  {
    assert Front(recs[..i + 1]) == recs[..i] && Last(recs[..i + 1]) == recs[i];
  }

  /** Record i is the next one undo handles below position p. */
  lemma UndoReaches(c: Core, recs: seq<Rec>, p: nat, i: nat, losers: set<int>)
    requires i < p <= |recs| && recs[i].body.Update? && recs[i].xid in losers
    requires forall j :: i < j < p ==> recs[j].xid !in losers
    ensures UndoAll(c, recs[..p], losers) == UndoAll(UndoRec(c, recs[i], losers), recs[..i], losers)
    ensures forall done: seq<Rec> ::
              done + LoserUpdates(recs[..p], losers) == done + [recs[i]] + LoserUpdates(recs[..i], losers)
  {
    hide UndoRec, UndoAll, LoserUpdates;
    SkipToHead(c, recs, p, i, losers);
    UndoHead(c, recs, i, losers);
    forall done: seq<Rec>
      ensures done + LoserUpdates(recs[..p], losers) == done + [recs[i]] + LoserUpdates(recs[..i], losers)
    {
      assert done + ([recs[i]] + LoserUpdates(recs[..i], losers)) == done + [recs[i]] + LoserUpdates(recs[..i], losers);
    }
  }

  lemma NextHeads(recs: seq<Rec>, p: nat, i: nat, toUndo: map<int, int>, losers: set<int>, xid: int)
    requires i < p <= |recs| && recs[i].xid == xid && xid in losers
    requires forall j :: i < j < p ==> recs[j].xid !in losers
    requires recs[i].prev == LastLsn(recs[..i], xid)
    requires forall x :: x != xid ==> (x in toUndo <==> x in losers && LastLsn(recs[..p], x) != NO_LSN)
    requires forall x :: x != xid && x in toUndo ==> toUndo[x] == LastLsn(recs[..p], x)
    requires xid in toUndo <==> recs[i].prev != NO_LSN
    requires xid in toUndo ==> toUndo[xid] == recs[i].prev
    ensures ChainHeads(toUndo, recs[..i], losers)
  {
    forall x | x in losers && x != xid ensures LastLsn(recs[..p], x) == LastLsn(recs[..i], x) {
      SameHead(recs, i, p, x);
    }
  }

  lemma {:induction false} NoHeads(c: Core, recs: seq<Rec>, losers: set<int>)
    requires forall x :: x in losers ==> LastLsn(recs, x) == NO_LSN
    ensures UndoAll(c, recs, losers) == c && LoserUpdates(recs, losers) == []
    decreases |recs|
  {
    if recs != [] {
      NoHeads(c, Front(recs), losers);
    }
  }

  lemma Member<T>(s: set<T>) returns (x: T)
    requires s != {}
    ensures x in s
  {
    x :| x in s;
  }

  lemma {:induction false} Greatest(m: map<int, int>) returns (x: int)
    requires m != map[]
    ensures x in m && forall y :: y in m ==> m[y] <= m[x]
    decreases |m|
  {
    assert m.Keys != {};
    x := Member(m.Keys);
    var rest := m - {x};
    if rest != map[] {
      var z := Greatest(rest);
      assert forall y :: y in m ==> y == x || y in rest;
      x := if m[z] > m[x] then z else x;
    } else {
      assert forall y :: y in m ==> y == x || y in rest;
    }
  }

  // ---------------------------------------------------------------- closing end records

  lemma CloseTxTable(c: Core, x: int)
    ensures CloseTx(c, x).tx == c.tx - {x}
  {
  }

  lemma {:induction false} CloseSnoc(c: Core, xs: seq<int>, x: int)
    ensures CloseAll(c, xs + [x]) == CloseTx(CloseAll(c, xs), x)
    decreases |xs|
  {
    hide CloseTx;
    if xs == [] {
      assert ([] + [x])[1..] == [];
    } else {
      assert (xs + [x])[1..] == xs[1..] + [x];
      CloseSnoc(CloseTx(c, xs[0]), xs[1..], x);
    }
  }

  /** Undo takes only losers out of the transaction table. */
  lemma {:induction false} UndoKeepsOthers(c: Core, recs: seq<Rec>, losers: set<int>)
    ensures var tx := UndoAll(c, recs, losers).tx;
            && (forall x :: x in tx ==> x in c.tx && tx[x] == c.tx[x])
            && (forall x :: x in c.tx && x !in losers ==> x in tx)
    decreases |recs|
  {
    hide CloseTx, RestorePage;
    if recs != [] {
      var r := Last(recs);
      if r.body.Update? && r.xid in losers {
        RestoreKeepsTable(c, r);
        CloseTxTable(RestorePage(c, r), r.xid);
      }
      UndoKeepsOthers(UndoRec(c, r, losers), Front(recs), losers);
    }
  }

  lemma RestoreKeepsTable(c: Core, r: Rec)
    requires r.body.Update?
    ensures RestorePage(c, r).tx == c.tx
  {
  }

  method FindCheckpoint(records: seq<Rec>, beginCkptLsn: int) returns (end: Option<nat>)
    ensures end == CheckpointEnd(records, beginCkptLsn)
  {
    if beginCkptLsn < 0 {
      return None;
    }
    var idx := 0;
    while idx < |records| && !(records[idx].lsn == beginCkptLsn && records[idx].body.BeginCkpt?)
      invariant 0 <= idx <= |records|
      invariant FindBegin(records, beginCkptLsn, 0) == FindBegin(records, beginCkptLsn, idx)
    {
      idx := idx + 1;
    }
    if idx == |records| {
      return None;
    }
    var e := idx + 1;
    while e < |records| && !records[e].body.EndCkpt?
      invariant idx + 1 <= e <= |records|
      invariant FindEnd(records, idx + 1) == FindEnd(records, e)
    {
      e := e + 1;
    }
    return if e < |records| then Some(e) else None;
  }

  method LargestXid(records: seq<Rec>) returns (m: int)
    ensures m == MaxXid(records)
  {
    m := -1;
    for i := 0 to |records|
      invariant m == MaxXid(records[..i])
    {
      assert records[..i + 1] == records[..i] + [records[i]];
      Snoc(records[..i], records[i]);
      if records[i].xid > m {
        m := records[i].xid;
      }
    }
    assert records[..|records|] == records;
  }

  /** Windows lie inside their page. */
  predicate RecordsFit(records: seq<Rec>, ps: nat) {
    forall i :: 0 <= i < |records| && records[i].body.Update? ==>
      && ValidFileId(records[i].body.key.file)
      && |records[i].body.before| == |records[i].body.after|
      && records[i].body.off + |records[i].body.after| <= ps
  }

  lemma LoggedRecordsFit(log: seq<Rec>, ps: nat)
    requires ps >= HEADER_SIZE && LogInv(log, ps)
    ensures RecordsFit(log, ps)
  {
    forall i | 0 <= i < |log| && log[i].body.Update?
      ensures ValidFileId(log[i].body.key.file) && |log[i].body.before| == |log[i].body.after|
      ensures log[i].body.off + |log[i].body.after| <= ps
    {
      RecAt(log, i, ps);
    }
  }

  lemma GrowByOne(c: Core, f: string, n: nat)
    requires ValidFileId(f) && f in c.files && CoreInvariant.FilesOk(c.files, c.cfg.pageSize)
    ensures var c' := DiskWrite(c, PageKey(f, Engine.NumPages(c, f)), Zeros(c.cfg.pageSize)).0;
            && f in c'.files && Engine.NumPages(c', f) == Engine.NumPages(c, f) + 1
            && CoreInvariant.FilesOk(c'.files, c.cfg.pageSize)
            && (n > 0 ==> WriteZeros(c, f, n) == WriteZeros(c', f, n - 1))
  {
    WriteKeepsSizes(c, PageKey(f, Engine.NumPages(c, f)), Zeros(c.cfg.pageSize));
  }

  lemma WriteKeepsSizes(c: Core, k: PageKey, data: Bytes)
    requires CoreInvariant.FilesOk(c.files, c.cfg.pageSize)
    ensures CoreInvariant.FilesOk(DiskWrite(c, k, data).0.files, c.cfg.pageSize)
  {
    hide PutPage;
    var c1 := CreateFile(c, k.file);
    if |data| == c.cfg.pageSize {
      PutKeepsSizes(c1.files, c.cfg.pageSize, k, data);
    }
  }

  lemma PutKeepsSizes(files: Files, ps: nat, k: PageKey, data: Bytes)
    requires CoreInvariant.FilesOk(files, ps) && k.file in files && |data| == ps
    ensures CoreInvariant.FilesOk(PutPage(files, ps, k, data), ps)
  {
  }

  lemma NotEmpty(dpt: map<PageKey, nat>)
    requires dpt != map[]
    ensures dpt.Values != {}
  {
    var k :| k in dpt;
    assert dpt[k] in dpt.Values;
  }

  lemma {:induction false} Least(s: set<nat>) returns (m: nat)
    requires s != {}
    ensures m in s && forall v :: v in s ==> m <= v
    decreases |s|
  {
    m :| m in s;
    var rest := s - {m};
    if rest != {} {
      var l := Least(rest);
      assert forall v :: v in s ==> v == m || v in rest;
      m := if l < m then l else m;
    } else {
      assert s == {m};
    }
  }
}
