/** A crash state of a small run from which recovery leaves a pageLSN far above the next LSN, so that the next
    committed change of that page is lost. */
module LostCommitExample {
  import opened Pages
  import opened Log
  import opened Engine
  import opened CoreInvariant
  import opened Pool
  import opened PoolInvariant
  import opened Analysis
  import opened Redo
  import opened Undo
  import opened Recovery
  import opened LostUpdate
  import opened FullRecovery
  import opened AfterRecovery
  import opened SecondRestart
  import opened PageLsns
  import opened LostCommit

  // ---------------------------------------------------------------- the log

  /** n transactions that update nothing: LSNs 0 to 2n - 1. */
  function ReadOnlyLog(n: nat): seq<Rec> {
    if n == 0 then [] else ReadOnlyLog(n - 1) + [Rec(2 * n - 2, NO_LSN, n - 1, Commit)] + [Rec(2 * n - 1, 2 * n - 2, n - 1, End)]
  }

  /** Then two transactions change the same page in turn: LSNs 254 to 256. */
  function ThreeUpdates(): (us: seq<Rec>)
    ensures |us| == 3
  {
    var k := PageKey("f", 0);
    [Rec(254, NO_LSN, 127, Update(k, LSN_OFFSET, [0], [254])),
     Rec(255, NO_LSN, 128, Update(k, LSN_OFFSET, [254], [255])),
     Rec(256, 254, 127, Update(k, LSN_OFFSET, [255, 0], [0, 1]))]
  }

  /** And the one that wrote first and last commits; the machine stops before any page is written. */
  function CrashLog(): seq<Rec> {
    ReadOnlyLog(127) + ThreeUpdates() + [Rec(257, 256, 127, Commit)]
  }

  function CrashState(): Durable {
    Durable(CrashLog(), map[], NO_LSN)
  }

  /** What the log says of transactions from x on and of updates: nothing. */
  ghost predicate Untouched(log: seq<Rec>, n: nat) {
    && Updaters(log) == {} && CommittedIn(log) == EndedIn(log)
    && (forall k :: Upd(log, k) == [])
    && (forall x :: x >= n ==> x !in CommittedIn(log) && x !in EndedIn(log) && LastLsn(log, x) == NO_LSN)
    && (forall i :: 0 <= i < |log| ==> !log[i].body.EndCkpt?)
  }

  lemma {:induction false} ReadOnlyOk(n: nat, ps: nat)
    requires ps >= HEADER_SIZE
    ensures var log := ReadOnlyLog(n);
            LogInv(log, ps) && Untouched(log, n) && |log| == 2 * n && (n > 0 ==> Last(log).lsn == 2 * n - 1)
  {
    hide LogInv, Untouched;
    if n == 0 {
      NothingLogged(ps);
    } else {
      ReadOnlyOk(n - 1, ps);
      OneReadOnly(ReadOnlyLog(n - 1), n - 1, ps);
    }
  }

  lemma NothingLogged(ps: nat)
    requires ps >= HEADER_SIZE
    ensures LogInv([], ps) && Untouched([], 0)
  {
  }

  lemma OneReadOnly(log: seq<Rec>, n: nat, ps: nat)
    requires ps >= HEADER_SIZE && LogInv(log, ps) && Untouched(log, n) && (log != [] ==> Last(log).lsn < 2 * n)
    ensures var a, b := Rec(2 * n, NO_LSN, n, Commit), Rec(2 * n + 1, 2 * n, n, End);
            var log' := log + [a] + [b];
            LogInv(log', ps) && Untouched(log', n + 1) && Last(log') == b
  {
    hide LogInv, Upd, Updaters, CommittedIn, EndedIn, LastLsn;
    var a, b := Rec(2 * n, NO_LSN, n, Commit), Rec(2 * n + 1, 2 * n, n, End);
    SnocViews(log, a);
    SnocViews(log + [a], b);
    assert RecOk(log, a, ps) && RecOk(log + [a], b, ps);
    LogInvSnoc(log, a, ps);
    LogInvSnoc(log + [a], b, ps);
  }

  lemma SnocViews(log: seq<Rec>, r: Rec)
    ensures var log' := log + [r];
            && Front(log') == log && Last(log') == r
            && (forall k :: Upd(log', k) == if r.body.Update? && r.body.key == k then Upd(log, k) + [r] else Upd(log, k))
            && Updaters(log') == (if r.body.Update? then Updaters(log) + {r.xid} else Updaters(log))
            && CommittedIn(log') == (if r.body.Commit? then CommittedIn(log) + {r.xid} else CommittedIn(log))
            && EndedIn(log') == (if r.body.End? then EndedIn(log) + {r.xid} else EndedIn(log))
            && forall x :: LastLsn(log', x) == if x == r.xid then r.lsn else LastLsn(log, x)
  {
    Snoc(log, r);
  }

  // ---------------------------------------------------------------- the page

  /** A page of zeros but for the two low bytes of its pageLSN. */
  function LsnPage(ps: nat, low: byte, high: byte): (p: Bytes)
    ensures |p| == ps
  {
    PatchAt(Zeros(ps), LSN_OFFSET, [low, high])
  }

  lemma LsnPageIs(ps: nat, low: byte, high: byte)
    requires ps >= HEADER_SIZE
    ensures PageLsn(LsnPage(ps, low, high)) == low + 256 * high
    ensures low != 0 || high != 0 ==> LsnPage(ps, low, high) != Zeros(ps)
  {
    var p := LsnPage(ps, low, high);
    var bs := p[LSN_OFFSET..LSN_OFFSET + LSN_SIZE];
    assert p[LSN_OFFSET] == [low, high][0] && p[LSN_OFFSET + 1] == [low, high][1];
    assert forall i :: 0 <= i < LSN_SIZE ==> bs[i] == p[LSN_OFFSET + i];
    LowTwo(bs);
  }

  /** The page after each of the three updates. */
  lemma ThreePages(ps: nat)
    requires ps >= HEADER_SIZE
    ensures var us, z := ThreeUpdates(), Zeros(ps);
            && Replay(us[..0], z) == LsnPage(ps, 0, 0) == z && Replay(us[..1], z) == LsnPage(ps, 254, 0)
            && Replay(us[..2], z) == LsnPage(ps, 255, 0) && Replay(us[..3], z) == LsnPage(ps, 0, 1)
  {
    var us, z := ThreeUpdates(), Zeros(ps);
    assert us[..0] == [] && us[..1] == [] + [us[0]] && us[..2] == us[..1] + [us[1]] && us[..3] == us[..2] + [us[2]];
    ReplaySnoc([], us[0], z);
    ReplaySnoc(us[..1], us[1], z);
    ReplaySnoc(us[..2], us[2], z);
    assert Patch(LsnPage(ps, 0, 0), us[0]) == LsnPage(ps, 254, 0);
    assert Patch(LsnPage(ps, 254, 0), us[1]) == LsnPage(ps, 255, 0);
    assert Patch(LsnPage(ps, 255, 0), us[2]) == LsnPage(ps, 0, 1);
  }

  lemma ThreeLogged(ps: nat, i: nat)
    requires ps >= HEADER_SIZE && i < 3
    ensures Logged(ThreeUpdates()[..i], ThreeUpdates()[i], ps)
  {
    hide Replay, PageLsn;
    var us, z := ThreeUpdates(), Zeros(ps);
    ThreePages(ps);
    LsnPageIs(ps, 254, 0);
    LsnPageIs(ps, 255, 0);
    LsnPageIs(ps, 0, 1);
    assert us[..i + 1] == us[..i] + [us[i]];
    assert LsnPage(ps, 0, 0)[LSN_OFFSET..LSN_OFFSET + 1] == [0];
    assert LsnPage(ps, 254, 0)[LSN_OFFSET..LSN_OFFSET + 1] == [254];
    assert LsnPage(ps, 255, 0)[LSN_OFFSET..LSN_OFFSET + 2] == [255, 0];
  }

  // ---------------------------------------------------------------- the crash state

  function Base(m: nat): seq<Rec>
    requires m <= 3
  {
    ReadOnlyLog(127) + ThreeUpdates()[..m]
  }

  lemma BaseStep(m: nat)
    requires m < 3
    ensures Base(m + 1) == Base(m) + [ThreeUpdates()[m]] && (m > 0 ==> Last(Base(m)) == ThreeUpdates()[m - 1])
    ensures Base(0) == ReadOnlyLog(127) && Base(3) == ReadOnlyLog(127) + ThreeUpdates()
  {
    hide ReadOnlyLog, ThreeUpdates;
    var us := ThreeUpdates();
    assert us[..m + 1] == us[..m] + [us[m]];
    assert us[..3] == us;
  }

  /** The views of the log while the three updates are added. */
  ghost predicate Seen(log: seq<Rec>, m: nat)
    requires m <= 3
  {
    && Upd(log, PageKey("f", 0)) == ThreeUpdates()[..m]
    && CommittedIn(log) == EndedIn(log) && (forall x :: x >= 127 ==> x !in EndedIn(log))
    && LastLsn(log, 127) == (if m == 0 then NO_LSN else if m == 3 then 256 else 254)
    && (m <= 1 ==> LastLsn(log, 128) == NO_LSN)
    && Updaters(log) == (if m == 0 then {} else if m == 1 then {127} else {127, 128})
    && (forall i :: 0 <= i < |log| ==> !log[i].body.EndCkpt?)
    && log != [] && Last(log).lsn == 253 + m
  }

  lemma {:induction false} BaseOk(m: nat, ps: nat)
    requires ps >= HEADER_SIZE && m <= 3
    ensures LogInv(Base(m), ps) && Seen(Base(m), m)
  {
    hide LogInv, ReadOnlyLog, Logged;
    if m == 0 {
      BaseStep(0);
      ReadOnlyOk(127, ps);
      assert ThreeUpdates()[..0] == [];
    } else {
      BaseOk(m - 1, ps);
      BaseStep(m - 1);
      ThreeLogged(ps, m - 1);
      Seeing(Base(m - 1), m - 1, ps);
    }
  }

  lemma Seeing(log: seq<Rec>, m: nat, ps: nat)
    requires ps >= HEADER_SIZE && m < 3 && Seen(log, m) && LogInv(log, ps) && Logged(ThreeUpdates()[..m], ThreeUpdates()[m], ps)
    ensures LogInv(log + [ThreeUpdates()[m]], ps) && Seen(log + [ThreeUpdates()[m]], m + 1)
  {
    hide Logged, LogInv, Upd, Updaters, CommittedIn, EndedIn, LastLsn;
    var u := ThreeUpdates()[m];
    assert RecOk(log, u, ps);
    LogInvSnoc(log, u, ps);
    SnocViews(log, u);
    assert ThreeUpdates()[..m + 1] == ThreeUpdates()[..m] + [u];
  }

  lemma CrashStateOk(ps: nat)
    requires ps >= HEADER_SIZE
    ensures CrashInv(CrashState(), ps) && !LostZero(CrashLog(), map[], ps)
    ensures Upd(CrashLog(), PageKey("f", 0)) == ThreeUpdates() && Losers(CrashLog()) == {128}
    ensures CrashLog() != [] && Last(CrashLog()).lsn == 257
    ensures CommittedIn(CrashLog()) == EndedIn(CrashLog()) + {127} && 127 !in EndedIn(CrashLog()) && 127 in Updaters(CrashLog())
  {
    hide LogInv, Logged, ReadOnlyLog, Upd, Updaters, CommittedIn, EndedIn, LastLsn;
    var r := Rec(257, 256, 127, Commit);
    BaseStep(2);
    BaseOk(3, ps);
    SnocViews(Base(3), r);
    assert ThreeUpdates()[..3] == ThreeUpdates();
    assert RecOk(Base(3), r, ps);
    LogInvSnoc(Base(3), r, ps);
    NothingOnDisk(CrashLog(), NO_LSN, ps);
  }

  // ---------------------------------------------------------------- the lost commit

  lemma ThreeUndone(ps: nat)
    requires ps >= HEADER_SIZE
    ensures UndoPage(ThreeUpdates(), {128}, Replay(ThreeUpdates(), Zeros(ps))) == LsnPage(ps, 254, 1)
  {
    hide Replay;
    var us := ThreeUpdates();
    ThreePages(ps);
    assert us[..3] == us;
    var p := LsnPage(ps, 0, 1);
    ThreeUnpatch(ps);
    hide Unpatch, LsnPage;
    UndoSkips(us, {128}, p);
    assert Front(us) == us[..2] && Last(us[..2]) == us[1] && Front(us[..2]) == us[..1];
    assert UndoPage(us[..2], {128}, p) == UndoPage(us[..1], {128}, LsnPage(ps, 254, 1));
    UndoSkips(us[..1], {128}, LsnPage(ps, 254, 1));
    assert Front(us[..1]) == [];
  }

  lemma ThreeUnpatch(ps: nat)
    requires ps >= HEADER_SIZE
    ensures Unpatch(LsnPage(ps, 0, 1), ThreeUpdates()[1]) == LsnPage(ps, 254, 1)
  {
  }

  lemma UndoSkips(us: seq<Rec>, losers: set<int>, p: Bytes)
    requires us != [] && Last(us).xid !in losers
    ensures UndoPage(us, losers, p) == UndoPage(Front(us), losers, p)
  {
  }

  /** Undo restores one byte of the pageLSN and leaves the other: 510 on the page, 260 the next LSN. */
  lemma UndoneLsnTooHigh(cfg: Config)
    requires cfg.pageSize >= HEADER_SIZE
    ensures AllCrashOk(cfg, [CrashState()]) && CrashLog() != []
    ensures MixedLsn(Upd(CrashLog(), PageKey("f", 0)), Losers(CrashLog())) == 510 && NextLsnAfter(CrashLog(), 1) == 260
    ensures DiskPage(Recover(cfg, [CrashState()], [127]).files, cfg.pageSize, PageKey("f", 0)) == LsnPage(cfg.pageSize, 254, 1)
  {
    hide Recover, DiskPage, CrashInv, Replay, Losers, UndoPage, ThreeUpdates, LsnPage, PageLsn, LostZero, CrashLog, Upd, MixedLsn;
    var ps, k := cfg.pageSize, PageKey("f", 0);
    CrashStateOk(ps);
    RecoveredPage(cfg, [CrashState()], [127], k);
    RecoveredLsn(cfg, [CrashState()], [127], k);
    ThreeUndone(ps);
    LsnPageIs(ps, 254, 1);
  }

  /** From there a transaction sets a byte of the page and commits, and the next recovery leaves the page without it. */
  lemma CommitGone(cfg: Config, ys: seq<int>, poolSize: nat, policy: Policy) returns (c2: Core)
    requires cfg.pageSize >= HEADER_SIZE && cfg.checkpointInterval >= 3 && poolSize >= 1
    ensures ClosingOrder(cfg, [CrashState()], [127])
    ensures var k, data := PageKey("f", 0), PatchAt(Zeros(cfg.pageSize), 0, [7]);
            && WritesAndCommits(Recover(cfg, [CrashState()], [127]), poolSize, policy, k, data, c2)
            && Stamp(data, 260)[0] == 7
            && var p := DiskPage(Recover(cfg, c2.hist, ys).files, cfg.pageSize, k);
            |p| == cfg.pageSize && p[0] == 0
  {
    hide Recover, DiskPage, Losers, CrashLog, Upd, MixedLsn, WritesAndCommits, AllCrashOk, ClosingOrder;
    UndoneLsnTooHigh(cfg);
    OneToClose(cfg);
    c2 := CommitLost(cfg, [CrashState()], [127], ys, poolSize, policy, PageKey("f", 0), PatchAt(Zeros(cfg.pageSize), 0, [7]));
  }

  /** The one committed transaction without an end record. */
  lemma OneToClose(cfg: Config)
    requires cfg.pageSize >= HEADER_SIZE
    ensures ClosingOrder(cfg, [CrashState()], [127])
  {
    hide Analyse, CrashLog, LostZero, CommittedIn, EndedIn, Updaters, Losers, Upd;
    CrashStateOk(cfg.pageSize);
    WalInv(CrashState(), cfg.pageSize);
    AnalysisTx(CrashLog(), NO_LSN, cfg.pageSize);
    var tx := Analyse(CrashLog(), NO_LSN).tx;
    forall x ensures x == 127 <==> x in tx && tx[x].status == Committed {
      if x in tx {
        assert TxEntryOk(tx[x], CrashLog(), x);
      }
    }
  }
}
