/** Phase 1 of recovery: rebuilding the transaction table and the dirty page table. */
module Analysis {
  import opened Pages
  import opened Log
  import opened Engine
  import opened CoreInvariant

  datatype Tables = Tables(tx: map<int, TxEntry>, dpt: map<PageKey, nat>)

  /** First begin_chkpt record with the given LSN, or |recs|. */
  function FindBegin(recs: seq<Rec>, lsn: int, i: nat): (r: nat)
    requires i <= |recs|
    ensures i <= r <= |recs|
    decreases |recs| - i
  {
    if i == |recs| || (recs[i].lsn == lsn && recs[i].body.BeginCkpt?) then i else FindBegin(recs, lsn, i + 1)
  }

  /** First end_chkpt record at or after position i, or |recs|. */
  function FindEnd(recs: seq<Rec>, i: nat): (r: nat)
    requires i <= |recs|
    ensures i <= r <= |recs| && (r < |recs| ==> recs[r].body.EndCkpt?)
    decreases |recs| - i
  {
    if i == |recs| || recs[i].body.EndCkpt? then i else FindEnd(recs, i + 1)
  }

  /** Position of the end record of the master's checkpoint; None when there is no complete one. */
  function CheckpointEnd(recs: seq<Rec>, master: int): (r: Option<nat>)
    ensures r.Some? ==> r.value < |recs| && recs[r.value].body.EndCkpt?
  {
    if master < 0 then None
    else
      var b := FindBegin(recs, master, 0);
      if b == |recs| then None
      else
        var e := FindEnd(recs, b + 1);
        if e == |recs| then None else Some(e)
  }

  function Snapshot(recs: seq<Rec>, e: Option<nat>): Tables
    requires e.Some? ==> e.value < |recs| && recs[e.value].body.EndCkpt?
  {
    if e.None? then Tables(map[], map[]) else Tables(recs[e.value].body.tx, recs[e.value].body.dpt)
  }

  function ScanFrom(recs: seq<Rec>, e: Option<nat>): int
    requires e.Some? ==> e.value < |recs|
  {
    if e.None? then NO_LSN else recs[e.value].lsn
  }

  /** One record of the forward scan. */
  function AnalyseRec(t: Tables, r: Rec): Tables {
    match r.body
    case Update(k, _, _, _) =>
      Tables(t.tx[r.xid := TxEntry(Active, r.lsn)], if k in t.dpt then t.dpt else t.dpt[k := r.lsn])
    case Commit =>
      if r.xid in t.tx then t.(tx := t.tx[r.xid := TxEntry(Committed, r.lsn)]) else t
    case End => t.(tx := t.tx - {r.xid})
    case _ => t
  }

  function Scan(t: Tables, recs: seq<Rec>, from: int): Tables {
    if recs == [] then t
    else
      var t1 := Scan(t, Front(recs), from);
      if Last(recs).lsn <= from then t1 else AnalyseRec(t1, Last(recs))
  }

  function Analyse(recs: seq<Rec>, master: int): Tables {
    var e := CheckpointEnd(recs, master);
    Scan(Snapshot(recs, e), recs, ScanFrom(recs, e))
  }

  /** Transactions undo will roll back. */
  function UndoLosers(tx: map<int, TxEntry>): set<int> {
    set x | x in tx && tx[x].status == Active && tx[x].lastLsn != NO_LSN
  }

  // ---------------------------------------------------------------- the scan

  lemma {:induction false} ScanNothing(t: Tables, recs: seq<Rec>, from: int)
    requires forall i :: 0 <= i < |recs| ==> recs[i].lsn <= from
    ensures Scan(t, recs, from) == t
  {
    if recs != [] {
      ScanNothing(t, Front(recs), from);
    }
  }

  lemma AnalyseRecOk(t: Tables, log: seq<Rec>, r: Rec, ps: nat)
    requires ps >= HEADER_SIZE && LogInv(log, ps) && RecOk(log, r, ps) && TxOk(t.tx, log)
    ensures TxOk(AnalyseRec(t, r).tx, log + [r])
  {
    hide Logged, LogInv;
    Snoc(log, r);
    var tx' := AnalyseRec(t, r).tx;
    forall x | x in tx' ensures TxEntryOk(tx'[x], log + [r], x) {
      if x in t.tx {
        assert TxEntryOk(t.tx[x], log, x);
      }
    }
  }

  /** From a correct snapshot, or from nothing, the scan ends with a correct table. */
  lemma {:induction false} ScanTx(t: Tables, log: seq<Rec>, e: int, from: int, ps: nat)
    requires ps >= HEADER_SIZE && LogInv(log, ps) && -1 <= e < |log|
    requires e == -1 ==> t.tx == map[] && from == NO_LSN
    requires e >= 0 ==> log[e].body.EndCkpt? && from == log[e].lsn && TxOk(t.tx, log[..e])
    ensures TxOk(Scan(t, log, from).tx, log)
  {
    if log == [] {
      return;
    }
    var r := Last(log);
    assert log == Front(log) + [r];
    if e == |log| - 1 {
      forall i | 0 <= i < |log| ensures log[i].lsn <= from {
        if i < e {
          LsnsIncrease(log, i, e, ps);
        }
      }
      ScanNothing(t, log, from);
      assert log[..e] == Front(log);
      RecAt(log, e, ps);
      TxOkSystemRec(t.tx, Front(log), r);
    } else {
      if e >= 0 {
        assert Front(log)[..e] == log[..e];
        LsnsIncrease(log, e, |log| - 1, ps);
      }
      ScanTx(t, Front(log), e, from, ps);
      AnalyseRecOk(Scan(t, Front(log), from), Front(log), r, ps);
    }
  }

  /** The larger of `from` and the last LSN of the log. */
  function Newest(log: seq<Rec>, from: int): int {
    if log != [] && Last(log).lsn > from then Last(log).lsn else from
  }

  /** Every scanned update of the log is covered. */
  ghost predicate Covered(dpt: map<PageKey, nat>, log: seq<Rec>, from: int) {
    forall i :: 0 <= i < |log| && log[i].body.Update? && log[i].lsn > from ==>
      log[i].body.key in dpt && dpt[log[i].body.key] <= log[i].lsn
  }

  ghost predicate Extends(dpt: map<PageKey, nat>, dpt': map<PageKey, nat>) {
    forall k :: k in dpt ==> k in dpt' && dpt'[k] == dpt[k]
  }

  /** Entries are never moved up, and every scanned update is covered. */
  lemma {:induction false} ScanDpt(t: Tables, log: seq<Rec>, from: int, ps: nat)
    requires ps >= HEADER_SIZE && LogInv(log, ps)
    requires DptBelow(t.dpt, from + 1)
    ensures var dpt := Scan(t, log, from).dpt;
            Extends(t.dpt, dpt) && Covered(dpt, log, from) && DptBelow(dpt, Newest(log, from) + 1)
  {
    if log != [] {
      ScanDpt(t, Front(log), from, ps);
      if |log| > 1 {
        LsnsIncrease(log, |log| - 2, |log| - 1, ps);
      }
      ScanLast(t, log, from);
      LastListable(log, ps);
      DptStep(Scan(t, Front(log), from).dpt, log, from);
    }
  }

  lemma LastListable(log: seq<Rec>, ps: nat)
    requires ps >= HEADER_SIZE && LogInv(log, ps) && log != []
    ensures Last(log).body.Update? ==> Listable(Last(log).body.key.file)
  {
    hide Logged;
  }

  /** One more record: the entries stay, and its page is listed. */
  lemma DptStep(dpt: map<PageKey, nat>, log: seq<Rec>, from: int)
    requires log != [] && Covered(dpt, Front(log), from) && DptBelow(dpt, Newest(Front(log), from) + 1)
    requires Last(log).body.Update? ==> Listable(Last(log).body.key.file)
    requires |log| > 1 ==> Last(Front(log)).lsn < Last(log).lsn
    ensures var r := Last(log);
            var dpt' := if r.lsn > from && r.body.Update? && r.body.key !in dpt then dpt[r.body.key := r.lsn] else dpt;
            Extends(dpt, dpt') && Covered(dpt', log, from) && DptBelow(dpt', Newest(log, from) + 1)
  {
    var r := Last(log);
    var dpt' := if r.lsn > from && r.body.Update? && r.body.key !in dpt then dpt[r.body.key := r.lsn] else dpt;
    forall i | 0 <= i < |log| && log[i].body.Update? && log[i].lsn > from
      ensures log[i].body.key in dpt' && dpt'[log[i].body.key] <= log[i].lsn
    {
      if i < |log| - 1 {
        assert Front(log)[i] == log[i];
      }
    }
  }

  lemma ScanLast(t: Tables, log: seq<Rec>, from: int)
    requires log != []
    ensures var dpt := Scan(t, Front(log), from).dpt; var r := Last(log);
            Scan(t, log, from).dpt ==
              if r.lsn > from && r.body.Update? && r.body.key !in dpt then dpt[r.body.key := r.lsn] else dpt
  {
  }

  // ---------------------------------------------------------------- which checkpoint, and what it gives

  /** Record e completes the checkpoint whose begin record has LSN m. */
  ghost predicate Completes(log: seq<Rec>, m: int, e: nat) {
    && e < |log| && log[e].body.EndCkpt?
    && exists b :: 0 <= b < e && log[b].lsn == m && log[b].body.BeginCkpt? && NoEndIn(log, b + 1, e)
  }

  predicate NoEndIn(log: seq<Rec>, i: nat, e: nat)
    requires e <= |log|
  {
    forall j :: i <= j < e ==> !log[j].body.EndCkpt?
  }

  lemma {:induction false} FirstBegin(log: seq<Rec>, m: int, i: nat)
    requires i <= |log|
    ensures var b := FindBegin(log, m, i);
            && (b < |log| ==> log[b].lsn == m && log[b].body.BeginCkpt?)
            && forall j :: i <= j < b ==> !(log[j].lsn == m && log[j].body.BeginCkpt?)
    decreases |log| - i
  {
    if i < |log| {
      FirstBegin(log, m, i + 1);
    }
  }

  lemma {:induction false} FirstEnd(log: seq<Rec>, i: nat)
    requires i <= |log|
    ensures NoEndIn(log, i, FindEnd(log, i))
    decreases |log| - i
  {
    if i < |log| {
      FirstEnd(log, i + 1);
    }
  }

  /** Analysis starts from the checkpoint the master record names, and from no other. */
  lemma CheckpointEndIs(log: seq<Rec>, m: int, e: nat, ps: nat)
    requires ps >= HEADER_SIZE && LogInv(log, ps)
    ensures CheckpointEnd(log, m) == Some(e) <==> Completes(log, m, e)
  {
    hide LogInv, FindBegin, FindEnd;
    FirstBegin(log, m, 0);
    var b := FindBegin(log, m, 0);
    if m >= 0 && b < |log| {
      FirstEnd(log, b + 1);
    }
    if Completes(log, m, e) {
      var b' :| 0 <= b' < e && log[b'].lsn == m && log[b'].body.BeginCkpt? && NoEndIn(log, b' + 1, e);
      if b < b' {
        LsnsIncrease(log, b, b', ps);
      }
      var e' := FindEnd(log, b + 1);
      assert e' <= e;
    }
  }

  /** What the scan makes of one page's entry: the snapshot's if there is one, else its first scanned update. */
  lemma {:induction false} ScanDptIs(t: Tables, log: seq<Rec>, from: int, n: nat, k: PageKey)
    requires n <= |log| && forall i :: 0 <= i < |log| ==> (log[i].lsn <= from <==> i < n)
    ensures var dpt, us := Scan(t, log, from).dpt, Upd(log[n..], k);
            && (k in dpt <==> k in t.dpt || us != [])
            && (k in dpt ==> dpt[k] == if k in t.dpt then t.dpt[k] else us[0].lsn)
  {
    if n == |log| {
      ScanNothing(t, log, from);
      assert log[n..] == [];
    } else {
      var front := Front(log);
      forall i | 0 <= i < |front| ensures front[i].lsn <= from <==> i < n {
        assert front[i] == log[i];
      }
      ScanDptIs(t, front, from, n, k);
      ScanLast(t, log, from);
      assert Front(log[n..]) == front[n..] && Last(log[n..]) == Last(log);
      assert Last(log) == log[|log| - 1];
    }
  }

  /** The dirty page table, exactly: a page the checkpoint lists has the recLSN it gives; any other is listed if it
      was updated after the checkpoint's end record, with the LSN of the first such update. */
  lemma AnalysisDptIs(log: seq<Rec>, m: int, k: PageKey, ps: nat)
    requires ps >= HEADER_SIZE && LogInv(log, ps)
    ensures var dpt := Analyse(log, m).dpt;
            && (forall e: nat :: Completes(log, m, e) ==> Listed(dpt, log[e].body.dpt, Upd(log[e + 1..], k), k))
            && ((forall e: nat :: !Completes(log, m, e)) ==> Listed(dpt, map[], Upd(log, k), k))
  {
    hide LogInv, Scan, CheckpointEnd, Completes;
    var c := CheckpointEnd(log, m);
    var n := if c.Some? then c.value + 1 else 0;
    forall e: nat ensures c == Some(e) <==> Completes(log, m, e) {
      CheckpointEndIs(log, m, e, ps);
    }
    forall i | 0 <= i < |log| ensures log[i].lsn <= ScanFrom(log, c) <==> i < n {
      if c.Some? && i < c.value {
        LsnsIncrease(log, i, c.value, ps);
      } else if c.Some? && i > c.value {
        LsnsIncrease(log, c.value, i, ps);
      }
    }
    ScanDptIs(Snapshot(log, c), log, ScanFrom(log, c), n, k);
    assert log[0..] == log;
  }

  predicate Listed(dpt: map<PageKey, nat>, snapshot: map<PageKey, nat>, us: seq<Rec>, k: PageKey) {
    && (k in dpt <==> k in snapshot || us != [])
    && (k in dpt ==> dpt[k] == if k in snapshot then snapshot[k] else us[0].lsn)
  }

  // ---------------------------------------------------------------- what Analysis establishes

  lemma SnapshotOk(log: seq<Rec>, e: nat, ps: nat)
    requires ps >= HEADER_SIZE && LogInv(log, ps) && e < |log| && log[e].body.EndCkpt?
    ensures TxOk(log[e].body.tx, log[..e])
    ensures DptBelow(log[e].body.dpt, log[e].lsn)
  {
    RecAt(log, e, ps);
  }

  /** The transaction table describes the whole log, wherever the scan started. */
  lemma AnalysisTx(log: seq<Rec>, master: int, ps: nat)
    requires ps >= HEADER_SIZE && LogInv(log, ps)
    ensures TxOk(Analyse(log, master).tx, log)
  {
    var e := CheckpointEnd(log, master);
    if e.Some? {
      SnapshotOk(log, e.value, ps);
    }
    ScanTx(Snapshot(log, e), log, if e.Some? then e.value else -1, ScanFrom(log, e), ps);
  }

  /** No update missing from a page on disk escapes the dirty page table. */
  lemma AnalysisDpt(log: seq<Rec>, master: int, k: PageKey, n: nat, ps: nat)
    requires ps >= HEADER_SIZE && LogInv(log, ps) && n <= |Upd(log, k)| && CkptOk(log, k, n)
    ensures DptCovers(Analyse(log, master).dpt, log, k, n)
  {
    hide LogInv, Scan, CheckpointEnd, Upd, CkptOk;
    var e := CheckpointEnd(log, master);
    var t, from := Snapshot(log, e), ScanFrom(log, e);
    if e.Some? {
      SnapshotOk(log, e.value, ps);
    }
    ScanDpt(t, log, from, ps);
    if n < |Upd(log, k)| {
      var i := UpdIndex(log, k, n);
      if log[i].lsn <= from {
        CkptCovers(log, e.value, k, n, ps);
      }
    }
  }

  /** A checkpoint after a missing update lists its page early enough. */
  lemma CkptCovers(log: seq<Rec>, e: nat, k: PageKey, n: nat, ps: nat)
    requires ps >= HEADER_SIZE && LogInv(log, ps) && n < |Upd(log, k)| && CkptOk(log, k, n)
    requires e < |log| && log[e].body.EndCkpt? && Upd(log, k)[n].lsn <= log[e].lsn
    ensures DptCovers(log[e].body.dpt, log, k, n)
  {
    hide LogInv, Upd, DptCovers;
    var i := UpdIndex(log, k, n);
    if i < e {
      LsnsIncrease(log, i, e, ps);
    } else {
      LsnsIncrease(log, e, i, ps);
    }
  }

  lemma AnalysisDptBound(log: seq<Rec>, master: int, ps: nat)
    requires ps >= HEADER_SIZE && LogInv(log, ps) && log != []
    ensures DptBelow(Analyse(log, master).dpt, Last(log).lsn + 1)
  {
    var e := CheckpointEnd(log, master);
    if e.Some? {
      SnapshotOk(log, e.value, ps);
      if e.value < |log| - 1 {
        LsnsIncrease(log, e.value, |log| - 1, ps);
      }
    }
    ScanDpt(Snapshot(log, e), log, ScanFrom(log, e), ps);
  }

  lemma NoDpt(master: int)
    ensures Analyse([], master).dpt == map[] && Analyse([], master).tx == map[]
  {
    assert CheckpointEnd([], master) == None;
  }

  /** Undo's losers are exactly the transactions with logged updates and no commit record. */
  lemma UndoLosersAre(tx: map<int, TxEntry>, log: seq<Rec>, ps: nat)
    requires ps >= HEADER_SIZE && LogInv(log, ps) && TxOk(tx, log)
    ensures UndoLosers(tx) == Losers(log)
  {
    forall x ensures x in UndoLosers(tx) <==> x in Losers(log) {
      if x in tx {
        assert TxEntryOk(tx[x], log, x);
        HasRecords(log, x, ps);
      } else if x in Updaters(log) {
        UpdaterXid(log, x, ps);
        HasRecords(log, x, ps);
      }
    }
  }

  lemma {:induction false} UpdaterXid(log: seq<Rec>, x: int, ps: nat)
    requires ps >= HEADER_SIZE && LogInv(log, ps) && x in Updaters(log)
    ensures x >= 0
  {
    if x in Updaters(Front(log)) {
      UpdaterXid(Front(log), x, ps);
    }
  }

  /** Fuzzy checkpoints lose nothing: from any two master records, Analysis finds the same
      losers and the same entry for every transaction with updates that has not ended. */
  lemma CheckpointsLoseNothing(log: seq<Rec>, m1: int, m2: int, ps: nat)
    requires ps >= HEADER_SIZE && LogInv(log, ps)
    ensures var t1, t2 := Analyse(log, m1).tx, Analyse(log, m2).tx;
            && UndoLosers(t1) == UndoLosers(t2) == Losers(log)
            && (forall x :: x in Updaters(log) ==> (x in t1 <==> x !in EndedIn(log)) && (x in t2 <==> x !in EndedIn(log)))
            && (forall x :: x in Updaters(log) && x !in EndedIn(log) ==> t1[x] == t2[x])
  {
    var t1, t2 := Analyse(log, m1).tx, Analyse(log, m2).tx;
    AnalysisTx(log, m1, ps);
    AnalysisTx(log, m2, ps);
    UndoLosersAre(t1, log, ps);
    UndoLosersAre(t2, log, ps);
    forall x | x in Updaters(log)
      ensures (x in t1 <==> x !in EndedIn(log)) && (x in t2 <==> x !in EndedIn(log))
      ensures x !in EndedIn(log) ==> t1[x] == t2[x]
    {
      assert x in t1 ==> TxEntryOk(t1[x], log, x);
      assert x in t2 ==> TxEntryOk(t2[x], log, x);
    }
  }

  /** The snapshot a scan starts from: that of the master's checkpoint, or nothing. */
  function StartTx(log: seq<Rec>, m: int): map<int, TxEntry> {
    Snapshot(log, CheckpointEnd(log, m)).tx
  }

  lemma StartTxIs(log: seq<Rec>, m: int, ps: nat)
    requires ps >= HEADER_SIZE && LogInv(log, ps)
    ensures forall e: nat :: Completes(log, m, e) ==> StartTx(log, m) == log[e].body.tx
    ensures (forall e: nat :: !Completes(log, m, e)) ==> StartTx(log, m) == map[]
  {
    hide LogInv, CheckpointEnd, Completes;
    forall e: nat ensures CheckpointEnd(log, m) == Some(e) <==> Completes(log, m, e) {
      CheckpointEndIs(log, m, e, ps);
    }
  }

  /** The scan drops the ended transactions and adds only updaters. */
  lemma {:induction false} ScanDomain(t: Tables, log: seq<Rec>, from: int, x: int)
    ensures x in Scan(t, log, from).tx ==> x in t.tx || x in Updaters(log)
    ensures x in t.tx && x !in EndedIn(log) ==> x in Scan(t, log, from).tx
  {
    if log != [] {
      ScanDomain(t, Front(log), from, x);
    }
  }

  /** Which transactions the table names, from any master record. */
  lemma TablesName(log: seq<Rec>, m: int, x: int, ps: nat)
    requires ps >= HEADER_SIZE && LogInv(log, ps)
    ensures x in Analyse(log, m).tx <==> x !in EndedIn(log) && (x in Updaters(log) || x in StartTx(log, m))
  {
    AnalysisTx(log, m, ps);
    var e := CheckpointEnd(log, m);
    ScanDomain(Snapshot(log, e), log, ScanFrom(log, e), x);
    assert x in Analyse(log, m).tx ==> TxEntryOk(Analyse(log, m).tx[x], log, x);
  }

  /** The entries from which undo or the closing end records start are the same. */
  ghost predicate SameLive(t1: map<int, TxEntry>, t2: map<int, TxEntry>) {
    forall x :: SameLiveAt(t1, t2, x)
  }

  predicate SameLiveAt(t1: map<int, TxEntry>, t2: map<int, TxEntry>, x: int) {
    && (x in t1 && t1[x].lastLsn != NO_LSN ==> x in t2 && t2[x] == t1[x])
    && (x in t2 && t2[x].lastLsn != NO_LSN ==> x in t1 && t1[x] == t2[x])
  }

  /** Committed without updates, and without an end record yet. */
  predicate HalfClosed(log: seq<Rec>, x: int) {
    x !in Updaters(log) && x in CommittedIn(log) && x !in EndedIn(log)
  }

  /** When two scans give the same live entries: exactly when their snapshots name the same
      half-closed transactions. */
  lemma TablesAgree(log: seq<Rec>, m1: int, m2: int, ps: nat)
    requires ps >= HEADER_SIZE && LogInv(log, ps)
    ensures SameLive(Analyse(log, m1).tx, Analyse(log, m2).tx)
       <==> forall x :: HalfClosed(log, x) ==> (x in StartTx(log, m1) <==> x in StartTx(log, m2))
  {
    hide Analyse, StartTx, LogInv, Updaters, CommittedIn, EndedIn, TxEntryOk, HalfClosed;
    forall x ensures SameLiveAt(Analyse(log, m1).tx, Analyse(log, m2).tx, x)
                <==> (HalfClosed(log, x) ==> (x in StartTx(log, m1) <==> x in StartTx(log, m2)))
    {
      AgreeAt(log, m1, m2, x, ps);
    }
  }

  lemma AgreeAt(log: seq<Rec>, m1: int, m2: int, x: int, ps: nat)
    requires ps >= HEADER_SIZE && LogInv(log, ps)
    ensures SameLiveAt(Analyse(log, m1).tx, Analyse(log, m2).tx, x)
       <==> (HalfClosed(log, x) ==> (x in StartTx(log, m1) <==> x in StartTx(log, m2)))
  {
    TablesName(log, m1, x, ps);
    TablesName(log, m2, x, ps);
    if x in Analyse(log, m1).tx {
      EntryIs(log, m1, x, ps);
    }
    if x in Analyse(log, m2).tx {
      EntryIs(log, m2, x, ps);
    }
    hide Analyse, StartTx, LogInv, Updaters, CommittedIn, EndedIn;
  }

  /** An entry is determined by the log; an unended one without updates is live exactly when it is half closed. */
  lemma EntryIs(log: seq<Rec>, m: int, x: int, ps: nat)
    requires ps >= HEADER_SIZE && LogInv(log, ps) && x in Analyse(log, m).tx
    ensures var e := Analyse(log, m).tx[x];
            && e == TxEntry(if x in CommittedIn(log) then Committed else Active, LastLsn(log, x))
            && (x !in Updaters(log) ==> (e.lastLsn != NO_LSN <==> HalfClosed(log, x)))
  {
    AnalysisTx(log, m, ps);
    assert TxEntryOk(Analyse(log, m).tx[x], log, x);
    HasRecords(log, x, ps);
    if x in CommittedIn(log) {
      CommitHasLsn(log, x, ps);
    }
  }

  lemma {:induction false} CommitHasLsn(log: seq<Rec>, x: int, ps: nat)
    requires ps >= HEADER_SIZE && LogInv(log, ps) && x in CommittedIn(log)
    ensures LastLsn(log, x) != NO_LSN
  {
    if Last(log).xid != x {
      CommitHasLsn(Front(log), x, ps);
    }
  }

  /** The checkpoint scan against the scan of the whole log: they agree on every live entry exactly when
      no transaction of the checkpoint's snapshot is half closed. */
  lemma CheckpointAgreesWithFullScan(log: seq<Rec>, m: int, ps: nat)
    requires ps >= HEADER_SIZE && LogInv(log, ps)
    ensures SameLive(Analyse(log, m).tx, Analyse(log, NO_LSN).tx)
       <==> forall x :: x in StartTx(log, m) && x !in Updaters(log) && x in CommittedIn(log) ==> x in EndedIn(log)
  {
    TablesAgree(log, m, NO_LSN, ps);
    assert StartTx(log, NO_LSN) == map[];
    hide SameLive, Updaters, CommittedIn, EndedIn, StartTx, Analyse, LogInv;
    assert (forall x :: HalfClosed(log, x) ==> (x in StartTx(log, m) <==> x in StartTx(log, NO_LSN)))
      <==> forall x :: HalfClosed(log, x) ==> x !in StartTx(log, m);
  }

  /** As whole tables they are equal exactly when the snapshots name the same unended transactions among
      those without updates. */
  lemma WholeTablesAgree(log: seq<Rec>, m1: int, m2: int, ps: nat)
    requires ps >= HEADER_SIZE && LogInv(log, ps)
    ensures Analyse(log, m1).tx == Analyse(log, m2).tx
       <==> forall x :: x !in Updaters(log) && x !in EndedIn(log) ==> (x in StartTx(log, m1) <==> x in StartTx(log, m2))
  {
    hide Analyse, StartTx, LogInv, Updaters, CommittedIn, EndedIn, HalfClosed;
    var t1, t2 := Analyse(log, m1).tx, Analyse(log, m2).tx;
    forall x ensures (x in t1 <==> x in t2)
                <==> (x !in Updaters(log) && x !in EndedIn(log) ==> (x in StartTx(log, m1) <==> x in StartTx(log, m2)))
             ensures x in t1 && x in t2 ==> t1[x] == t2[x]
    {
      TablesName(log, m1, x, ps);
      TablesName(log, m2, x, ps);
      if x in t1 && x in t2 {
        EntryIs(log, m1, x, ps);
        EntryIs(log, m2, x, ps);
      }
    }
    SameTable(t1, t2);
  }

  lemma SameTable(t1: map<int, TxEntry>, t2: map<int, TxEntry>)
    requires forall x :: x in t1 && x in t2 ==> t1[x] == t2[x]
    ensures t1 == t2 <==> forall x :: x in t1 <==> x in t2
  {
    if forall x :: x in t1 <==> x in t2 {
      assert forall x :: x in t1 ==> x in t2 && t1[x] == t2[x];
      assert t1 == t2;
    }
  }

  /** So an entry of one table that the other lacks, or has differently, belongs to a transaction without
      updates that has nothing to undo: it has no LSN yet, or it is half closed. */
  lemma OnlyUpdatelessDiffer(log: seq<Rec>, m1: int, m2: int, x: int, ps: nat)
    requires ps >= HEADER_SIZE && LogInv(log, ps) && x in Analyse(log, m1).tx
    requires x !in Analyse(log, m2).tx || Analyse(log, m2).tx[x] != Analyse(log, m1).tx[x]
    ensures x !in Updaters(log) && x in StartTx(log, m1) && x !in StartTx(log, m2)
    ensures Analyse(log, m1).tx[x].lastLsn == NO_LSN || HalfClosed(log, x)
  {
    TablesName(log, m1, x, ps);
    TablesName(log, m2, x, ps);
    EntryIs(log, m1, x, ps);
    if x in Analyse(log, m2).tx {
      EntryIs(log, m2, x, ps);
    }
  }

  /** The tables do differ on such a transaction: it began before the checkpoint, wrote nothing
      and crashed between its commit record and its end record. */
  lemma UpdatelessCommitDiffers(ps: nat)
    requires ps >= HEADER_SIZE
    ensures var log := [Rec(0, NO_LSN, SYS_XID, BeginCkpt),
                        Rec(1, NO_LSN, SYS_XID, EndCkpt(map[0 := TxEntry(Active, NO_LSN)], map[])),
                        Rec(2, NO_LSN, 0, Commit)];
            && LogInv(log, ps)
            && Analyse(log, 0).tx == map[0 := TxEntry(Committed, 2)]
            && Analyse(log, NO_LSN).tx == map[]
  {
    var a := Rec(0, NO_LSN, SYS_XID, BeginCkpt);
    var b := Rec(1, NO_LSN, SYS_XID, EndCkpt(map[0 := TxEntry(Active, NO_LSN)], map[]));
    var c := Rec(2, NO_LSN, 0, Commit);
    var log := [a, b, c];
    assert Front(log) == [a, b] && Front([a, b]) == [a] && Front([a]) == [];
    assert CommittedIn([]) == {} && EndedIn([]) == {} && Updaters([]) == {};
    assert CommittedIn([a]) == {} && EndedIn([a]) == {} && Updaters([a]) == {};
    assert LastLsn([a], 0) == NO_LSN && LastLsn([a, b], 0) == NO_LSN;
    assert LogInv([], ps) && LogInv([a], ps);
    assert TxEntryOk(TxEntry(Active, NO_LSN), [a], 0);
    assert LogInv([a, b], ps);
    assert FindBegin(log, 0, 0) == 0 && FindEnd(log, 1) == 1;
    var e := Some(1);
    assert CheckpointEnd(log, 0) == e && CheckpointEnd(log, NO_LSN) == None;
    var t := Snapshot(log, e);
    assert Scan(t, [], 1) == t && Scan(t, [a], 1) == t && Scan(t, [a, b], 1) == t;
    var z := Tables(map[], map[]);
    assert Scan(z, [], NO_LSN) == z && Scan(z, [a], NO_LSN) == z && Scan(z, [a, b], NO_LSN) == z;
  }
}
