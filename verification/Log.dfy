/** Log records, the history of one page, and what makes a log well formed. */
module Log {
  import opened Pages

  datatype PageKey = PageKey(file: string, pid: nat)

  /** A safe single-segment file name. */
  predicate ValidFileId(f: string) {
    f != "" && f != "." && f != ".." && '/' !in f
  }

  /** The separator of the dirty page table's text form may not occur in the id of a logged file. */
  predicate Listable(f: string) {
    '|' !in f
  }

  datatype Status = Active | Committed
  datatype TxEntry = TxEntry(status: Status, lastLsn: int)

  const NO_LSN := -1
  const SYS_XID := -1

  datatype Body =
    | Update(key: PageKey, off: nat, before: Bytes, after: Bytes)
    | Commit
    | End
    | BeginCkpt
    | EndCkpt(tx: map<int, TxEntry>, dpt: map<PageKey, nat>)

  datatype Rec = Rec(lsn: nat, prev: int, xid: int, body: Body)

  function Front<T>(s: seq<T>): seq<T>
    requires s != []
  {
    s[..|s| - 1]
  }

  function Last<T>(s: seq<T>): T
    requires s != []
  {
    s[|s| - 1]
  }

  // ---------------------------------------------------------------- views of a log

  /** The history of a page: its update records, oldest first. */
  function Upd(log: seq<Rec>, k: PageKey): (us: seq<Rec>)
    ensures |us| <= |log|
  {
    if log == [] then []
    else if Last(log).body.Update? && Last(log).body.key == k then Upd(Front(log), k) + [Last(log)]
    else Upd(Front(log), k)
  }

  /** LSN of the transaction's latest record, or NO_LSN. */
  function LastLsn(log: seq<Rec>, xid: int): int {
    if log == [] then NO_LSN
    else if Last(log).xid == xid then Last(log).lsn
    else LastLsn(Front(log), xid)
  }

  function Updaters(log: seq<Rec>): set<int> {
    if log == [] then {} else Updaters(Front(log)) + if Last(log).body.Update? then {Last(log).xid} else {}
  }

  function CommittedIn(log: seq<Rec>): set<int> {
    if log == [] then {} else CommittedIn(Front(log)) + if Last(log).body.Commit? then {Last(log).xid} else {}
  }

  function EndedIn(log: seq<Rec>): set<int> {
    if log == [] then {} else EndedIn(Front(log)) + if Last(log).body.End? then {Last(log).xid} else {}
  }

  /** Transactions whose effects recovery has to remove. */
  function Losers(log: seq<Rec>): set<int> {
    Updaters(log) - CommittedIn(log)
  }

  /** The page obtained by applying a history to `p`; this is what a page means. */
  function Replay(us: seq<Rec>, p: Bytes): (r: Bytes)
    ensures |r| == |p|
  {
    if us == [] then p else Patch(Replay(Front(us), p), Last(us))
  }

  function Patch(p: Bytes, r: Rec): (q: Bytes)
    ensures |q| == |p|
  {
    if r.body.Update? then PatchAt(p, r.body.off, r.body.after) else p
  }

  lemma ReplayNothing(p: Bytes)
    ensures Replay([], p) == p
  {
  }

  // ---------------------------------------------------------------- well-formed logs

  /** `u` is what logging writes for a change of the page whose history is `us`. */
  predicate Logged(us: seq<Rec>, u: Rec, ps: nat)
    requires ps >= HEADER_SIZE
  {
    && u.body.Update?
    && |u.body.before| == |u.body.after|
    && u.body.off + |u.body.after| <= ps
    && u.body.before == Replay(us, Zeros(ps))[u.body.off..u.body.off + |u.body.before|]
    && PageLsn(Replay(us + [u], Zeros(ps))) == u.lsn
    && Replay(us + [u], Zeros(ps)) != Zeros(ps)
  }

  /** The transaction table describes the log: what Analysis has to find. */
  ghost predicate TxOk(tx: map<int, TxEntry>, log: seq<Rec>) {
    && (forall x :: x in tx ==> TxEntryOk(tx[x], log, x))
    && (forall x :: x in Updaters(log) && x !in EndedIn(log) ==> x in tx)
  }

  predicate TxEntryOk(e: TxEntry, log: seq<Rec>, x: int) {
    && x >= 0
    && e.lastLsn == LastLsn(log, x)
    && (e.status == Committed <==> x in CommittedIn(log))
    && x !in EndedIn(log)
  }

  /** `r` may follow `log`. */
  ghost predicate RecOk(log: seq<Rec>, r: Rec, ps: nat)
    requires ps >= HEADER_SIZE
  {
    && (log != [] ==> Last(log).lsn < r.lsn)
    && (r.xid >= 0 ==> r.prev == LastLsn(log, r.xid))
    && match r.body
       case Update(k, _, _, _) =>
         && r.xid >= 0 && r.xid !in CommittedIn(log) && r.xid !in EndedIn(log)
         && ValidFileId(k.file) && Listable(k.file) && Logged(Upd(log, k), r, ps)
       case Commit => r.xid >= 0
       case End => r.xid >= 0 && r.xid in CommittedIn(log)
       case BeginCkpt => r.xid == SYS_XID
       case EndCkpt(tx, dpt) => r.xid == SYS_XID && TxOk(tx, log) && DptBelow(dpt, r.lsn)
  }

  /** A dirty page table that survives its text form and whose entries are below `lsn`. */
  predicate DptBelow(dpt: map<PageKey, nat>, lsn: int) {
    forall k :: k in dpt ==> dpt[k] < lsn && Listable(k.file)
  }

  ghost predicate LogInv(log: seq<Rec>, ps: nat)
    requires ps >= HEADER_SIZE
  {
    log == [] || (LogInv(Front(log), ps) && RecOk(Front(log), Last(log), ps))
  }

  // ---------------------------------------------------------------- prefixes

  lemma Snoc(log: seq<Rec>, r: Rec)
    ensures Front(log + [r]) == log && Last(log + [r]) == r
  {
  }

  lemma LogInvSnoc(log: seq<Rec>, r: Rec, ps: nat)
    requires ps >= HEADER_SIZE && LogInv(log, ps) && RecOk(log, r, ps)
    ensures LogInv(log + [r], ps)
  {
    hide RecOk;
    Snoc(log, r);
  }

  /** The views of a prefix are prefixes (or subsets) of the views. */
  lemma {:induction false} PrefixViews(log: seq<Rec>, m: nat, k: PageKey)
    requires m <= |log|
    ensures Upd(log[..m], k) <= Upd(log, k)
    ensures Updaters(log[..m]) <= Updaters(log)
    ensures CommittedIn(log[..m]) <= CommittedIn(log)
    ensures EndedIn(log[..m]) <= EndedIn(log)
  {
    if m == |log| {
      assert log[..m] == log;
    } else {
      PrefixViews(Front(log), m, k);
      assert Front(log)[..m] == log[..m];
    }
  }

  lemma {:induction false} LogInvPrefix(log: seq<Rec>, m: nat, ps: nat)
    requires ps >= HEADER_SIZE && m <= |log| && LogInv(log, ps)
    ensures LogInv(log[..m], ps)
  {
    if m == |log| {
      assert log[..m] == log;
    } else {
      LogInvPrefix(Front(log), m, ps);
      assert Front(log)[..m] == log[..m];
    }
  }

  lemma RecAt(log: seq<Rec>, i: nat, ps: nat)
    requires ps >= HEADER_SIZE && i < |log| && LogInv(log, ps)
    ensures LogInv(log[..i], ps) && RecOk(log[..i], log[i], ps)
  {
    LogInvPrefix(log, i + 1, ps);
    assert Front(log[..i + 1]) == log[..i];
  }

  /** LSNs increase along the log. */
  lemma {:induction false} LsnsIncrease(log: seq<Rec>, i: nat, j: nat, ps: nat)
    requires ps >= HEADER_SIZE && i < j < |log| && LogInv(log, ps)
    ensures log[i].lsn < log[j].lsn
    decreases j - i
  {
    RecAt(log, j, ps);
    if i + 1 < j {
      LsnsIncrease(log, i, j - 1, ps);
    }
    assert Last(log[..j]) == log[j - 1];
  }

  // ---------------------------------------------------------------- the history of a page

  /** Position in the log of the j-th update of a page. */
  function {:induction false} UpdIndex(log: seq<Rec>, k: PageKey, j: nat): (i: nat)
    requires j < |Upd(log, k)|
    ensures i < |log| && log[i] == Upd(log, k)[j]
    ensures log[i].body.Update? && log[i].body.key == k
    ensures |Upd(log[..i], k)| == j
  {
    if Last(log).body.Update? && Last(log).body.key == k && j == |Upd(Front(log), k)| then |log| - 1
    else
      var i := UpdIndex(Front(log), k, j);
      assert Front(log)[..i] == log[..i];
      i
  }

  lemma UpdCountMonotone(log: seq<Rec>, i: nat, j: nat, k: PageKey)
    requires i <= j <= |log|
    ensures Upd(log[..i], k) <= Upd(log[..j], k)
  {
    PrefixViews(log[..j], i, k);
    assert log[..j][..i] == log[..i];
  }

  lemma UpdIndexOrder(log: seq<Rec>, k: PageKey, a: nat, b: nat)
    requires a < b < |Upd(log, k)|
    ensures UpdIndex(log, k, a) < UpdIndex(log, k, b)
  {
    var i, j := UpdIndex(log, k, a), UpdIndex(log, k, b);
    if j <= i {
      UpdCountMonotone(log, j, i, k);
    }
  }

  lemma UpdLsnsIncrease(log: seq<Rec>, k: PageKey, a: nat, b: nat, ps: nat)
    requires ps >= HEADER_SIZE && LogInv(log, ps) && a < b < |Upd(log, k)|
    ensures Upd(log, k)[a].lsn < Upd(log, k)[b].lsn
  {
    UpdIndexOrder(log, k, a, b);
    LsnsIncrease(log, UpdIndex(log, k, a), UpdIndex(log, k, b), ps);
  }

  /** The update at position i is the next one after the updates before position i. */
  lemma UpdAt(log: seq<Rec>, i: nat)
    requires i < |log| && log[i].body.Update?
    ensures var k := log[i].body.key; var j := |Upd(log[..i], k)|;
            && j < |Upd(log, k)| && Upd(log, k)[j] == log[i] && Upd(log[..i], k) == Upd(log, k)[..j]
            && Upd(log[..i + 1], k) == Upd(log, k)[..j + 1]
  {
    var k := log[i].body.key;
    PrefixViews(log, i + 1, k);
    assert Front(log[..i + 1]) == log[..i];
  }

  lemma UpdSkip(log: seq<Rec>, i: nat, k: PageKey)
    requires i < |log| && !(log[i].body.Update? && log[i].body.key == k)
    ensures Upd(log[..i + 1], k) == Upd(log[..i], k)
  {
    assert Front(log[..i + 1]) == log[..i];
  }

  /** Every update of a history was logged against the page at that moment. */
  lemma HistoryLogged(log: seq<Rec>, k: PageKey, j: nat, ps: nat)
    requires ps >= HEADER_SIZE && LogInv(log, ps) && j < |Upd(log, k)|
    ensures Logged(Upd(log, k)[..j], Upd(log, k)[j], ps)
    ensures PageLsn(Replay(Upd(log, k)[..j + 1], Zeros(ps))) == Upd(log, k)[j].lsn
    ensures Replay(Upd(log, k)[..j + 1], Zeros(ps)) != Zeros(ps)
    ensures Upd(log, k)[j].xid in Updaters(log)
  {
    hide LogInv, Upd, Replay, PageLsn, Updaters;
    var i := UpdIndex(log, k, j);
    RecAt(log, i, ps);
    UpdAt(log, i);
    UpdaterAt(log, i);
    assert Upd(log, k)[..j + 1] == Upd(log, k)[..j] + [Upd(log, k)[j]];
  }

  lemma UpdaterAt(log: seq<Rec>, i: nat)
    requires i < |log| && log[i].body.Update?
    ensures log[i].xid in Updaters(log)
  {
    PrefixViews(log, i + 1, log[i].body.key);
    assert Front(log[..i + 1]) == log[..i];
  }

  /** pageLSN of a page that holds the first n updates of its history. */
  lemma ReplayLsn(log: seq<Rec>, k: PageKey, n: nat, ps: nat)
    requires ps >= HEADER_SIZE && LogInv(log, ps) && n <= |Upd(log, k)|
    ensures PageLsn(Replay(Upd(log, k)[..n], Zeros(ps))) == if n == 0 then 0 else Upd(log, k)[n - 1].lsn
    ensures n > 0 ==> Replay(Upd(log, k)[..n], Zeros(ps)) != Zeros(ps)
  {
    if n == 0 {
      ZeroPageLsn(ps);
      assert Upd(log, k)[..0] == [];
    } else {
      HistoryLogged(log, k, n - 1, ps);
    }
  }

  // ---------------------------------------------------------------- transactions

  lemma {:induction false} LastLsnBound(log: seq<Rec>, x: int, ps: nat)
    requires ps >= HEADER_SIZE && LogInv(log, ps)
    ensures NO_LSN <= LastLsn(log, x)
    ensures LastLsn(log, x) != NO_LSN ==> log != [] && LastLsn(log, x) <= Last(log).lsn
  {
    if log != [] && Last(log).xid != x {
      LastLsnBound(Front(log), x, ps);
    }
  }

  /** A transaction with records that neither committed nor ended has updates. */
  lemma {:induction false} HasRecords(log: seq<Rec>, x: int, ps: nat)
    requires ps >= HEADER_SIZE && LogInv(log, ps) && x >= 0
    ensures x in Updaters(log) ==> LastLsn(log, x) != NO_LSN
    ensures LastLsn(log, x) != NO_LSN ==> x in Updaters(log) || x in CommittedIn(log)
    ensures x in EndedIn(log) ==> x in CommittedIn(log)
  {
    if log != [] {
      HasRecords(Front(log), x, ps);
    }
  }

  /** No update follows the commit of its transaction. */
  lemma CommittedStays(log: seq<Rec>, m: nat, x: int)
    requires m <= |log| && x in CommittedIn(log[..m])
    ensures x in CommittedIn(log) && x !in Losers(log)
  {
    PrefixViews(log, m, PageKey("", 0));
  }
}
