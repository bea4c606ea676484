/** Whole runs: any sequence of client operations, crashes in the middle of any of them, and
    restarts; and what one last crash and recovery leave on disk. */
module Runs {
  import opened Pages
  import opened Log
  import opened Engine
  import opened CoreInvariant
  import opened Pool
  import opened PoolInvariant
  import opened Analysis
  import opened Redo
  import opened Undo
  import opened Recovery
  import opened FullRecovery

  // ---------------------------------------------------------------- restart without losers

  lemma TxOkClosed(tx: map<int, TxEntry>, log: seq<Rec>, e: Rec)
    requires TxOk(tx, log) && e.body.End?
    ensures TxOk(tx - {e.xid}, log + [e])
  {
    Snoc(log, e);
    forall x | x in tx - {e.xid} ensures TxEntryOk((tx - {e.xid})[x], log + [e], x) {
      assert TxEntryOk(tx[x], log, x);
    }
  }

  /** The end record of a transaction that committed before the crash. */
  lemma CloseTxInv(c: Core, x: int)
    requires Inv(c) && TxInv(c) && x in c.tx && c.tx[x].status == Committed && x < c.nextXid
    ensures var c' := CloseTx(c, x);
            Quiet(c, c') && TxInv(c') && c'.tx == c.tx - {x} && c'.nextXid == c.nextXid
  {
    hide FilePart, HistPart, RunPage, FlushIfFull, SameHistories, Grows, Emit;
    assert TxEntryOk(c.tx[x], FullLog(c), x);
    QuietEmit(c, x, End);
    TxOkClosed(c.tx, FullLog(c), MakeRec(c, c.nextLsn, x, End));
    var c1 := Emit(c, x, End);
    assert c1.tx - {x} == c.tx - {x};
    SameCore(c1, CloseTx(c, x));
    QuietThen(c, c1, CloseTx(c, x));
  }

  lemma {:induction false} CloseAllInv(c: Core, xs: seq<int>)
    requires Inv(c) && TxInv(c)
    requires forall x :: x in xs ==> x in c.tx && c.tx[x].status == Committed && x < c.nextXid
    requires forall i, j :: 0 <= i < j < |xs| ==> xs[i] != xs[j]
    ensures Quiet(c, CloseAll(c, xs)) && TxInv(CloseAll(c, xs))
    decreases |xs|
  {
    hide Inv, TxInv, CloseTx, Grows, SameHistories;
    if xs == [] {
      QuietSelf(c);
    } else {
      CloseTxInv(c, xs[0]);
      var c1 := CloseTx(c, xs[0]);
      CloseAllInv(c1, xs[1..]);
      QuietThen(c, c1, CloseAll(c, xs));
    }
  }

  lemma CommittedXid(log: seq<Rec>, x: int)
    requires x in CommittedIn(log)
    ensures x <= MaxXid(log)
  {
  }

  /** Redo ends in a state of the run invariant. */
  lemma RedoneInv(cfg: Config, hist: seq<Durable>)
    requires AllCrashOk(cfg, hist) && !LostZero(Last(hist).wal, Last(hist).files, cfg.pageSize)
    ensures var c := RedoAll(Analysed(cfg, hist), Last(hist).wal);
            && Inv(c) && TxInv(c) && hist <= c.hist && c.wal == Last(hist).wal && c.logBuf == []
            && c.tx == Analysed(cfg, hist).tx && c.nextXid == MaxXid(c.wal) + 1 && c.cfg == cfg
  {
    hide LostZero, Analyse, RedoAll, LogInv, FilesOk, CrashInv, CkptOk;
    RedoRepeatsHistory(cfg, hist);
    var c := RedoAll(Analysed(cfg, hist), Last(hist).wal);
    assert FullLog(c) == c.wal;
    assert CrashInv(Last(hist), cfg.pageSize);
    WalInv(Last(hist), cfg.pageSize);
    AnalysisTx(c.wal, c.master, cfg.pageSize);
    if c.wal != [] {
      AnalysisDptBound(c.wal, c.master, cfg.pageSize);
    } else {
      NoDpt(c.master);
    }
    assert c.wal[..|c.wal|] == c.wal;
    forall k ensures RunPage(c, k) {
      assert RedoPage(c, |c.wal|, k);
      var n: nat :| RedoHolds(c, |c.wal|, k, n);
      assert RunHolds(c, k, n);
    }
  }

  lemma RestartIsAnalysed(cfg: Config, hist: seq<Durable>)
    requires hist != [] && Last(hist).wal == []
    ensures Restart(cfg, hist) == RedoAll(Analysed(cfg, hist), [])
  {
    NoDpt(Last(hist).master);
  }

  /** A restart that finds no losers resumes the run: same history of every page, all of it on disk. */
  lemma RestartInv(cfg: Config, hist: seq<Durable>, xs: seq<int>)
    requires AllCrashOk(cfg, hist) && !LostZero(Last(hist).wal, Last(hist).files, cfg.pageSize)
    requires Losers(Last(hist).wal) == {} && ClosingOrder(cfg, hist, xs)
    ensures var c := Recover(cfg, hist, xs);
            && Inv(c) && TxInv(c) && Last(hist).wal <= c.wal && c.cfg == cfg
            && LaterStates(hist, c.hist, Last(hist).wal)
            && forall k :: DiskPage(c.files, cfg.pageSize, k) == Current(c, k)
  {
    hide LostZero, Analyse, RedoAll, Inv, TxOk, CrashInv, LogInv, CloseAll, UndoAll, DiskPage, Replay;
    RedoneInv(cfg, hist);
    RedoRepeatsHistory(cfg, hist);
    var wal := Last(hist).wal;
    var c1 := RedoAll(Analysed(cfg, hist), wal);
    if wal == [] {
      RestartIsAnalysed(cfg, hist);
      assert FullLog(c1) == wal;
    } else {
      assert UndoLosers(c1.tx) == {} by {
        RedoneLosers(cfg, hist);
      }
      UndoNobody(c1, wal);
      forall x | x in xs ensures x < c1.nextXid {
        ClosingXid(c1, x);
      }
      CloseAllInv(c1, xs);
      var c2 := CloseAll(c1, xs);
      QuietFlush(c2);
      QuietThen(c1, c2, FlushLog(c2));
      assert FullLog(c1) == wal;
    }
  }

  lemma RedoneLosers(cfg: Config, hist: seq<Durable>)
    requires AllCrashOk(cfg, hist)
    ensures UndoLosers(Analysed(cfg, hist).tx) == Losers(Last(hist).wal)
  {
    assert CrashInv(Last(hist), cfg.pageSize);
    AnalysisTx(Last(hist).wal, Last(hist).master, cfg.pageSize);
    UndoLosersAre(Analysed(cfg, hist).tx, Last(hist).wal, cfg.pageSize);
  }

  lemma ClosingXid(c: Core, x: int)
    requires TxInv(c) && x in c.tx && c.tx[x].status == Committed && c.logBuf == [] && c.nextXid == MaxXid(c.wal) + 1
    ensures x < c.nextXid
  {
    assert TxEntryOk(c.tx[x], FullLog(c), x);
    assert FullLog(c) == c.wal;
    CommittedXid(c.wal, x);
  }

  // ---------------------------------------------------------------- client operations

  datatype Op =
    | Begin
    | Write(xid: int, key: PageKey, data: Bytes)
    | CommitOp(xid: int)
    | Read(key: PageKey)
    | Allocate(file: string)
    | NewFile(file: string)
    | FlushPages
    | ForceLog

  /** What the layers above guarantee: writes run under an open transaction of files the
      checkpoint text can name, with an LSN that fits its header field, and an allocated page reads as zeros. */
  ghost predicate Enabled(s: Sys, op: Op) {
    match op
    case Write(xid, k, _) => MayWrite(s.core, xid) && Listable(k.file)
    case CommitOp(xid) => xid in s.core.tx && 0 <= xid < s.core.nextXid
    case Allocate(f) => ValidFileId(f) && Logical(s, PageKey(f, NumPages(s.core, f))) == Zeros(s.core.cfg.pageSize)
    case NewFile(f) => ValidFileId(f)
    case _ => true
  }

  ghost function Apply(s: Sys, op: Op): Sys
    requires FramesOk(s)
  {
    match op
    case Begin => s.(core := BeginTx(s.core))
    case Write(xid, k, data) => WritePage(s, Some(xid), k, data).0
    case CommitOp(xid) => s.(core := CommitTx(s.core, xid))
    case Read(k) => GetPage(s, k).0
    case Allocate(f) => AllocatePage(s, f).0
    case NewFile(f) => s.(core := CreateFile(s.core, f))
    case FlushPages => FlushFrames(s, s.order).0
    case ForceLog => s.(core := FlushLog(s.core))
  }

  /** A core step that leaves pages and histories alone leaves every frame correct. */
  lemma QuietSys(s: Sys, c: Core)
    requires SysInv(s) && Quiet(s.core, c) && TxInv(c)
    ensures SysInv(s.(core := c))
  {
    hide Inv, TxInv, LaterStates, DiskPage, FullLog;
    forall k ensures Content(s.(core := c), k) {
      assert Content(s, k);
    }
    forall k | k in s.frames ensures Placed(c, k) {
      assert Placed(s.core, k);
    }
  }

  lemma NewFileInv(s: Sys, f: string)
    requires SysInv(s)
    ensures SysInv(s.(core := CreateFile(s.core, f))) && Grows(s.core, CreateFile(s.core, f))
  {
    hide Inv, TxOk, Grows, DiskPage, CreateFile, NumPages;
    CreateFileInv(s.core, f);
    var c := CreateFile(s.core, f);
    forall k ensures Content(s.(core := c), k) {
      assert Content(s, k);
    }
    forall k | k in s.frames ensures Placed(c, k) {
      assert Placed(s.core, k);
    }
  }

  lemma ApplyInv(s: Sys, op: Op)
    requires SysInv(s) && Enabled(s, op)
    ensures SysInv(Apply(s, op)) && Grows(s.core, Apply(s, op).core)
  {
    hide Inv, TxInv, Grows, Content, Placed, FramesOk, BeginTx, CommitTx, FlushLog, CreateFile, GetPage,
         WritePage, AllocatePage, FlushFrames;
    match op
    case Begin =>
      BeginInv(s.core);
      QuietSys(s, BeginTx(s.core));
    case Write(xid, k, data) => WritePageInv(s, xid, k, data);
    case CommitOp(xid) =>
      CommitInv(s.core, xid);
      QuietSys(s, CommitTx(s.core, xid));
    case Read(k) => GetPageInv(s, k);
    case Allocate(f) => AllocatePageInv(s, f);
    case NewFile(f) => NewFileInv(s, f);
    case FlushPages => FlushInv(s);
    case ForceLog =>
      QuietFlush(s.core);
      assert TxInv(FlushLog(s.core)) by {
        ForcedTx(s.core);
      }
      QuietSys(s, FlushLog(s.core));
  }

  lemma ForcedTx(c: Core)
    requires Inv(c) && TxInv(c)
    ensures TxInv(FlushLog(c))
  {
    hide TxOk;
    QuietFlush(c);
  }

  // ---------------------------------------------------------------- runs

  /** A recovery that is cut off at the j-th durable state; `xs` is the order of its closing end records. */
  datatype Cut = Cut(j: nat, xs: seq<int>)

  /** Either an operation completes, or the machine stops at the j-th durable state reached during it
      and the engine is started again, where recovery may itself be cut off any number of times. */
  datatype Step = Do(op: Op) | CrashIn(op: Op, j: nat, cuts: seq<Cut>, xs: seq<int>)

  /** Recovery from this history finds no losers and no zero-LSN loss. */
  ghost predicate CleanStart(cfg: Config, hist: seq<Durable>, xs: seq<int>) {
    && hist != [] && NoLostZero(Last(hist), cfg.pageSize) && Losers(Last(hist).wal) == {}
    && ClosingOrder(cfg, hist, xs)
  }

  ghost predicate CutsOk(cfg: Config, hist: seq<Durable>, cuts: seq<Cut>)
    decreases |cuts|
  {
    cuts == [] ||
    (&& CleanStart(cfg, hist, cuts[0].xs)
     && |hist| <= cuts[0].j + 1 <= |Recover(cfg, hist, cuts[0].xs).hist|
     && CutsOk(cfg, Recover(cfg, hist, cuts[0].xs).hist[..cuts[0].j + 1], cuts[1..]))
  }

  /** The durable states passed through once all the cut-off recoveries have stopped. */
  ghost function AfterCuts(cfg: Config, hist: seq<Durable>, cuts: seq<Cut>): seq<Durable>
    requires CutsOk(cfg, hist, cuts)
    decreases |cuts|
  {
    if cuts == [] then hist
    else AfterCuts(cfg, Recover(cfg, hist, cuts[0].xs).hist[..cuts[0].j + 1], cuts[1..])
  }

  /** A cut-off recovery leaves a state recovery can start from, and takes nothing off wal.log. */
  lemma {:induction false} CutsInv(cfg: Config, hist: seq<Durable>, cuts: seq<Cut>)
    requires AllCrashOk(cfg, hist) && CutsOk(cfg, hist, cuts)
    ensures var h := AfterCuts(cfg, hist, cuts);
            AllCrashOk(cfg, h) && LaterStates(hist, h, Last(hist).wal) && Last(hist).wal <= Last(h).wal
    decreases |cuts|
  {
    hide Recover, ClosingOrder, LostZero, CrashInv, LogPart, FilePart, RunPage, TxInv, Current, DiskPage;
    if cuts != [] {
      RestartInv(cfg, hist, cuts[0].xs);
      var c := Recover(cfg, hist, cuts[0].xs);
      var h := c.hist[..cuts[0].j + 1];
      assert Last(h) == c.hist[cuts[0].j];
      CutsInv(cfg, h, cuts[1..]);
    }
  }

  /** Durable states up to a crash during `op`. */
  ghost function CrashHist(s: Sys, op: Op, j: nat): seq<Durable>
    requires FramesOk(s) && j < |Apply(s, op).core.hist|
  {
    Apply(s, op).core.hist[..j + 1]
  }

  ghost predicate CrashPoint(s: Sys, op: Op, j: nat)
    requires FramesOk(s)
  {
    Enabled(s, op) && |s.core.hist| <= j + 1 <= |Apply(s, op).core.hist|
  }

  /** Recovery loses no update to the zero-LSN test. */
  predicate NoLostZero(d: Durable, ps: nat) {
    !LostZero(d.wal, d.files, ps)
  }

  ghost predicate StepOk(s: Sys, step: Step)
    requires FramesOk(s)
  {
    match step
    case Do(op) => Enabled(s, op)
    case CrashIn(op, j, cuts, xs) =>
      && CrashPoint(s, op, j) && CutsOk(s.core.cfg, CrashHist(s, op, j), cuts)
      && CleanStart(s.core.cfg, AfterCuts(s.core.cfg, CrashHist(s, op, j), cuts), xs)
  }

  ghost function Next(s: Sys, step: Step): Sys
    requires FramesOk(s) && StepOk(s, step)
  {
    match step
    case Do(op) => Apply(s, op)
    case CrashIn(op, j, cuts, xs) =>
      Sys(Recover(s.core.cfg, AfterCuts(s.core.cfg, CrashHist(s, op, j), cuts), xs), s.poolSize, s.policy, [], map[], map[])
  }

  /** At every durable state an operation passes through, recovery finds what it relies on. */
  lemma CrashPointOk(s: Sys, op: Op, j: nat)
    requires SysInv(s) && CrashPoint(s, op, j)
    ensures AllCrashOk(s.core.cfg, CrashHist(s, op, j))
    ensures s.core.wal <= Last(CrashHist(s, op, j)).wal
    ensures LaterStates(s.core.hist, CrashHist(s, op, j), s.core.wal)
  {
    hide LogPart, FilePart, RunPage, TxInv, Content, Placed, CrashInv, Apply;
    ApplyInv(s, op);
    var c := Apply(s, op).core;
    assert Inv(c) && c.cfg == s.core.cfg;
    PageSizeOk(c);
    var h := CrashHist(s, op, j);
    assert Last(h) == c.hist[j];
    if j == |s.core.hist| - 1 {
      assert c.hist[j] == Last(s.core.hist);
    }
  }

  lemma NextInv(s: Sys, step: Step)
    requires SysInv(s) && StepOk(s, step)
    ensures var t := Next(s, step);
            && SysInv(t) && t.core.cfg == s.core.cfg && s.core.wal <= t.core.wal
            && LaterStates(s.core.hist, t.core.hist, s.core.wal)
  {
    hide Inv, TxInv, Apply, Recover, ClosingOrder, DiskPage, Current, CrashInv, LostZero, AfterCuts, CutsOk;
    match step
    case Do(op) => ApplyInv(s, op);
    case CrashIn(op, j, cuts, xs) =>
      CrashPointOk(s, op, j);
      var h := CrashHist(s, op, j);
      CutsInv(s.core.cfg, h, cuts);
      RestartInv(s.core.cfg, AfterCuts(s.core.cfg, h, cuts), xs);
      EmptyPoolInv(Next(s, step));
  }

  /** An empty pool over pages that are all current. */
  lemma EmptyPoolInv(s: Sys)
    requires Inv(s.core) && TxInv(s.core) && s.order == [] && s.frames == map[] && s.poolSize >= 1
    requires forall k :: DiskPage(s.core.files, s.core.cfg.pageSize, k) == Current(s.core, k)
    ensures SysInv(s)
  {
    hide TxInv, HistPart, FilePart, RunPage, DiskPage, Current;
    forall k ensures Content(s, k) {
    }
  }

  ghost predicate Legal(s: Sys, steps: seq<Step>)
    requires SysInv(s)
    decreases |steps|
  {
    steps == [] || (StepOk(s, steps[0]) && (NextInv(s, steps[0]); Legal(Next(s, steps[0]), steps[1..])))
  }

  ghost function Run(s: Sys, steps: seq<Step>): (t: Sys)
    requires SysInv(s) && Legal(s, steps)
    ensures SysInv(t)
    decreases |steps|
  {
    if steps == [] then s
    else
      NextInv(s, steps[0]);
      Run(Next(s, steps[0]), steps[1..])
  }

  /** An empty data directory. */
  function Fresh(cfg: Config, poolSize: nat, policy: Policy): Sys {
    Sys(Core(cfg, [], map[], NO_LSN, [Durable([], map[], NO_LSN)], map[], [], map[], map[], 0, NO_LSN, 0, 0),
        poolSize, policy, [], map[], map[])
  }

  lemma FreshInv(cfg: Config, poolSize: nat, policy: Policy)
    requires cfg.pageSize >= HEADER_SIZE && poolSize >= 1
    ensures SysInv(Fresh(cfg, poolSize, policy))
  {
    var s := Fresh(cfg, poolSize, policy);
    forall k ensures RunPage(s.core, k) && PageOk([], map[], cfg.pageSize, k) {
      assert HoldsFirst([], map[], cfg.pageSize, k, 0);
      assert RunHolds(s.core, k, 0);
    }
    EmptyPoolInv(s);
  }

  // ---------------------------------------------------------------- end-to-end theorems

  /** Nothing durable is ever lost from the log, whatever happens later. */
  lemma {:induction false} RunGrows(s: Sys, steps: seq<Step>)
    requires SysInv(s) && Legal(s, steps)
    ensures s.core.wal <= Run(s, steps).core.wal && Run(s, steps).core.cfg == s.core.cfg
    decreases |steps|
  {
    hide Inv, TxInv, Content, Placed, StepOk, Next;
    if steps != [] {
      NextInv(s, steps[0]);
      RunGrows(Next(s, steps[0]), steps[1..]);
    }
  }

  /** A run that follows a commit, and a crash at the j-th durable state of an operation after it. */
  ghost predicate CrashedAfter(s: Sys, xid: int, steps: seq<Step>, op: Op, j: nat) {
    && SysInv(s) && Enabled(s, CommitOp(xid))
    && (ApplyInv(s, CommitOp(xid)); Legal(Apply(s, CommitOp(xid)), steps))
    && CrashPoint(Run(Apply(s, CommitOp(xid)), steps), op, j)
  }

  ghost function LogAfter(s: Sys, xid: int, steps: seq<Step>, op: Op, j: nat): seq<Rec>
    requires CrashedAfter(s, xid, steps, op, j)
  {
    ApplyInv(s, CommitOp(xid));
    Last(CrashHist(Run(Apply(s, CommitOp(xid)), steps), op, j)).wal
  }

  /** Durability (WAL #2): once `commit` has returned, the transaction is a winner at every later
      crash point: all its records are durable there and recovery undoes none of its updates. */
  lemma CommitIsDurable(s: Sys, xid: int, steps: seq<Step>, op: Op, j: nat)
    requires CrashedAfter(s, xid, steps, op, j)
    ensures var wal := LogAfter(s, xid, steps, op, j);
            FullLog(s.core) <= wal && xid in CommittedIn(wal) && xid !in Losers(wal)
  {
    hide Inv, TxInv, Content, Placed, CrashHist, Run, Apply, Legal, FullLog;
    ApplyInv(s, CommitOp(xid));
    CommitGrows(s, xid);
    var s1 := Apply(s, CommitOp(xid));
    var t := Run(s1, steps);
    RunGrows(s1, steps);
    CrashPointOk(t, op, j);
    var wal := Last(CrashHist(t, op, j)).wal;
    assert s1.core.wal <= wal;
    assert wal[..|s1.core.wal|] == s1.core.wal;
    CommittedStays(wal, |s1.core.wal|, xid);
  }

  lemma CommitGrows(s: Sys, xid: int)
    requires SysInv(s) && Enabled(s, CommitOp(xid))
    ensures var wal := Apply(s, CommitOp(xid)).core.wal; FullLog(s.core) <= wal && xid in CommittedIn(wal)
  {
    hide Inv, TxInv, Content, Placed, CommitTx, FramesOk, FullLog, Grows, SameHistories;
    CommitInv(s.core, xid);
    CommitAppends(s.core, xid);
  }

  lemma CommitAppends(c: Core, xid: int)
    requires Inv(c) && TxInv(c) && 0 <= xid < c.nextXid && xid in c.tx
    ensures FullLog(c) <= FullLog(CommitTx(c, xid))
  {
    hide FilePart, HistPart, LogPart, RunPage, SameHistories, Grows, Emit, FlushLog, SetCommitted;
    CommitRecordInv(c, xid) by {
      assert TxEntryOk(c.tx[xid], FullLog(c), xid);
    }
    var c1 := SetCommitted(FlushLog(Emit(c, xid, Commit)), xid);
    EndRecordInv(c1, xid);
  }

  /** Recoveries that are cut off in Redo, at the given durable states, one after the other. */
  ghost predicate RedoCutsOk(cfg: Config, hist: seq<Durable>, js: seq<nat>)
    decreases |js|
  {
    js == [] ||
    (&& hist != [] && NoLostZero(Last(hist), cfg.pageSize)
     && |hist| <= js[0] + 1 <= |Redone(cfg, hist).hist|
     && RedoCutsOk(cfg, Redone(cfg, hist).hist[..js[0] + 1], js[1..]))
  }

  function Redone(cfg: Config, hist: seq<Durable>): Core
    requires hist != []
  {
    RedoAll(Analysed(cfg, hist), Last(hist).wal)
  }

  ghost function AfterRedoCuts(cfg: Config, hist: seq<Durable>, js: seq<nat>): (h: seq<Durable>)
    requires RedoCutsOk(cfg, hist, js)
    ensures hist != [] ==> h != []
    decreases |js|
  {
    if js == [] then hist else AfterRedoCuts(cfg, Redone(cfg, hist).hist[..js[0] + 1], js[1..])
  }

  lemma {:induction false} RedoCutsInv(cfg: Config, hist: seq<Durable>, js: seq<nat>)
    requires AllCrashOk(cfg, hist) && RedoCutsOk(cfg, hist, js)
    ensures var h := AfterRedoCuts(cfg, hist, js); AllCrashOk(cfg, h) && Last(h).wal == Last(hist).wal
    decreases |js|
  {
    hide LostZero, Analyse, RedoAll, LogInv, FilesOk, CrashInv, Replay, DiskPage;
    if js != [] {
      RedoRepeatsHistory(cfg, hist);
      var h := Redone(cfg, hist).hist[..js[0] + 1];
      assert Last(h) == Redone(cfg, hist).hist[js[0]];
      RedoCutsInv(cfg, h, js[1..]);
    }
  }

  /** A run from an empty directory, and a last crash at the j-th durable state of an operation. */
  ghost predicate CrashedRun(cfg: Config, poolSize: nat, policy: Policy, steps: seq<Step>, op: Op, j: nat) {
    && cfg.pageSize >= HEADER_SIZE && poolSize >= 1
    && (FreshInv(cfg, poolSize, policy); Legal(Fresh(cfg, poolSize, policy), steps))
    && CrashPoint(Run(Fresh(cfg, poolSize, policy), steps), op, j)
  }

  /** The durable states such a run passes through. */
  ghost function CrashedHist(cfg: Config, poolSize: nat, policy: Policy, steps: seq<Step>, op: Op, j: nat): (h: seq<Durable>)
    requires CrashedRun(cfg, poolSize, policy, steps, op, j)
    ensures h != []
  {
    FreshInv(cfg, poolSize, policy);
    CrashHist(Run(Fresh(cfg, poolSize, policy), steps), op, j)
  }

  lemma CrashedRunOk(cfg: Config, poolSize: nat, policy: Policy, steps: seq<Step>, op: Op, j: nat)
    requires CrashedRun(cfg, poolSize, policy, steps, op, j)
    ensures AllCrashOk(cfg, CrashedHist(cfg, poolSize, policy, steps, op, j))
  {
    hide SysInv, Run, Apply, Legal, AllCrashOk, CrashHist;
    FreshInv(cfg, poolSize, policy);
    RunGrows(Fresh(cfg, poolSize, policy), steps);
    CrashPointOk(Run(Fresh(cfg, poolSize, policy), steps), op, j);
  }

  /** End to end: after any run from an empty directory, with crashes and restarts in it, and a
      last crash at any durable state of any operation, followed by recoveries cut off in Redo, the
      recovery that completes leaves a byte as the winners alone would have made it if and only if
      it is restored: it survives undo, and no lost zero-LSN update shows in it. */
  lemma EndToEnd(cfg: Config, poolSize: nat, policy: Policy, steps: seq<Step>, op: Op, j: nat, js: seq<nat>, xs: seq<int>,
                 k: PageKey, b: nat)
    requires CrashedRun(cfg, poolSize, policy, steps, op, j)
    requires RedoCutsOk(cfg, CrashedHist(cfg, poolSize, policy, steps, op, j), js) && b < cfg.pageSize
    ensures var h0 := CrashedHist(cfg, poolSize, policy, steps, op, j);
            var h := AfterRedoCuts(cfg, h0, js);
            var us := Upd(Last(h0).wal, k); var losers := Losers(Last(h0).wal);
            var page := DiskPage(Recover(cfg, h, xs).files, cfg.pageSize, k);
            && Last(h).wal == Last(h0).wal && |page| == cfg.pageSize
            && (page[b] == WinnersOnly(us, losers, Zeros(cfg.pageSize))[b] <==> Restored(Last(h), cfg.pageSize, k, b))
  {
    hide CrashedHist, AllCrashOk, Recover, DiskPage, Restored, AfterRedoCuts, RedoCutsOk;
    CrashedRunOk(cfg, poolSize, policy, steps, op, j);
    var h0 := CrashedHist(cfg, poolSize, policy, steps, op, j);
    RedoCutsInv(cfg, h0, js);
    CrashAtomicity(cfg, AfterRedoCuts(cfg, h0, js), xs, k, b);
  }

  /** WAL #1 in every reachable state: a page on disk is either untouched or has its pageLSN among
      the flushed LSNs. */
  lemma WalOne(s: Sys, k: PageKey)
    requires SysInv(s)
    ensures var p := DiskPage(s.core.files, s.core.cfg.pageSize, k);
            && |p| == s.core.cfg.pageSize
            && (p == Zeros(|p|) || PageLsn(p) <= s.core.flushedLsn)
  {
    hide TxInv, FilePart, HistPart, Content, CkptOk, LogInv, Upd;
    var c := s.core;
    assert RunPage(c, k);
    var n: nat :| RunHolds(c, k, n);
    hide FramesOk, Placed;
    HeldLsn(FullLog(c), |c.wal|, k, n, c.cfg.pageSize);
  }

  /** The log buffer holds strictly increasing LSNs between flushedLSN and the next one. */
  lemma BufferOrdered(s: Sys, i: nat, j: nat)
    requires SysInv(s) && i <= j < |s.core.logBuf|
    ensures s.core.flushedLsn < s.core.logBuf[i].lsn && s.core.logBuf[j].lsn < s.core.nextLsn
    ensures i < j ==> s.core.logBuf[i].lsn < s.core.logBuf[j].lsn
  {
    hide TxInv, FilePart, HistPart, Content, CkptOk, LogInv, RunPage, FramesOk, Placed;
    var c := s.core;
    BufferedLsns(c, i);
    BufferedLsns(c, j);
    if i < j {
      LsnsIncrease(FullLog(c), |c.wal| + i, |c.wal| + j, c.cfg.pageSize);
    }
  }

  lemma BufferedLsns(c: Core, i: nat)
    requires LogPart(c) && i < |c.logBuf|
    ensures c.flushedLsn < c.logBuf[i].lsn < c.nextLsn
  {
    hide LogInv;
    var log, ps := FullLog(c), c.cfg.pageSize;
    assert log[|c.wal| + i] == c.logBuf[i];
    if c.wal != [] {
      LsnsIncrease(log, |c.wal| - 1, |c.wal| + i, ps);
    }
    if i < |c.logBuf| - 1 {
      LsnsIncrease(log, |c.wal| + i, |log| - 1, ps);
    }
  }

  /** A page that holds n updates, all among the first m records, has a pageLSN of one of those. */
  lemma HeldLsn(log: seq<Rec>, m: nat, k: PageKey, n: nat, ps: nat)
    requires ps >= HEADER_SIZE && LogInv(log, ps) && m <= |log| && n <= |Upd(log[..m], k)| && n <= |Upd(log, k)|
    ensures var p := Replay(Upd(log, k)[..n], Zeros(ps));
            p == Zeros(ps) || (m > 0 && PageLsn(p) <= log[m - 1].lsn)
  {
    hide LogInv, Replay, PageLsn;
    if n == 0 {
      assert Upd(log, k)[..0] == [];
      ReplayNothing(Zeros(ps));
    } else {
      ReplayLsn(log, k, n, ps);
      PrefixViews(log, m, k);
      var i := UpdIndex(log[..m], k, n - 1);
      if i < m - 1 {
        LsnsIncrease(log, i, m - 1, ps);
      }
    }
  }

  /** After a restart new LSNs exceed the pageLSN of every page on disk. */
  lemma RestartLsns(cfg: Config, hist: seq<Durable>, k: PageKey)
    requires AllCrashOk(cfg, hist)
    ensures var p := DiskPage(Last(hist).files, cfg.pageSize, k);
            && |p| == cfg.pageSize
            && (p == Zeros(|p|) || PageLsn(p) < Restart(cfg, hist).nextLsn)
  {
    hide CkptOk, FilesOk;
    var d := Last(hist);
    assert CrashInv(d, cfg.pageSize) && PageOk(d.wal, d.files, cfg.pageSize, k);
    var n: nat :| HoldsFirst(d.wal, d.files, cfg.pageSize, k, n);
    assert d.wal[..|d.wal|] == d.wal;
    HeldLsn(d.wal, |d.wal|, k, n, cfg.pageSize);
  }
}
