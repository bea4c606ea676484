/** What the master record names: in every reachable durable state nothing or a complete checkpoint of the log, and
    the last one unless the machine stopped while one was being recorded; and what the next start-up finds there. */
module Checkpoints {
  import opened Pages
  import opened Log
  import opened Engine
  import opened CoreInvariant
  import opened Pool
  import opened PoolInvariant
  import opened Analysis
  import opened Redo
  import opened Undo
  import opened Recovery
  import opened AfterRecovery
  import opened CutRecovery
  import opened PageLsns
  import opened Runs

  // ---------------------------------------------------------------- steps that leave the master record alone

  /** The durable states on the way to c' have the master record of c and a log between those of the two. */
  ghost predicate Between(c: Core, c': Core) {
    && c.hist <= c'.hist && c'.master == c.master && FullLog(c) <= FullLog(c') && c.wal <= c'.wal
    && (Recorded(c) ==> Recorded(c'))
    && forall j :: |c.hist| <= j < |c'.hist| ==> c'.hist[j].master == c.master && c.wal <= c'.hist[j].wal <= FullLog(c')
  }

  /** And no checkpoint is completed or counted towards. */
  ghost predicate Plain(c: Core, c': Core) {
    && Between(c, c') && NoneEnded(FullLog(c), FullLog(c'))
    && c'.cfg == c.cfg && c'.ops == c.ops && (BufferSmall(c) ==> BufferSmall(c'))
  }

  /** The log buffer is flushed when it is full. */
  predicate BufferSmall(c: Core) {
    c.logBuf == [] || |c.logBuf| < c.cfg.logBufferSize
  }

  /** A checkpoint is taken when it is due. */
  predicate OpsSmall(c: Core) {
    c.ops == 0 || c.ops < c.cfg.checkpointInterval
  }

  predicate NoneEnded(wal: seq<Rec>, log: seq<Rec>) {
    wal <= log && forall j :: |wal| <= j < |log| ==> !log[j].body.EndCkpt?
  }

  lemma BetweenThen(c: Core, c1: Core, c2: Core)
    requires Between(c, c1) && Between(c1, c2)
    ensures Between(c, c2)
  {
    hide FullLog, Recorded;
    forall j | |c.hist| <= j < |c2.hist| ensures c2.hist[j].master == c.master && c.wal <= c2.hist[j].wal <= FullLog(c2) {
      if j < |c1.hist| {
        assert c2.hist[j] == c1.hist[j];
      }
    }
  }

  lemma PlainThen(c: Core, c1: Core, c2: Core)
    requires Plain(c, c1) && Plain(c1, c2)
    ensures Plain(c, c2)
  {
    hide FullLog, Between;
    BetweenThen(c, c1, c2);
    var a, b, d := FullLog(c), FullLog(c1), FullLog(c2);
    forall j | |a| <= j < |d| ensures !d[j].body.EndCkpt? {
      if j < |b| {
        assert d[j] == b[j];
      }
    }
  }

  lemma PlainSelf(c: Core)
    ensures Plain(c, c)
  {
    assert c.wal <= FullLog(c);
  }

  /** Volatile changes. */
  lemma PlainVolatile(c: Core, c': Core)
    requires c' == c.(numPages := c'.numPages, tx := c'.tx, dpt := c'.dpt, nextLsn := c'.nextLsn, nextXid := c'.nextXid)
    ensures Plain(c, c')
  {
    assert c.wal <= FullLog(c);
  }

  lemma FlushPlain(c: Core)
    ensures Plain(c, FlushLog(c)) && FullLog(FlushLog(c)) == FullLog(c) && FlushLog(c).logBuf == []
  {
    FlushPasses(c);
    FlushCounted(c);
    FlushRest(c);
    if Recorded(c) {
      FlushCloses(c);
    }
  }

  lemma EmitBetween(c: Core, lsn: nat, xid: int, body: Body)
    ensures var c' := EmitWithLsn(c, lsn, xid, body);
            && Between(c, c') && FullLog(c') == FullLog(c) + [MakeRec(c, lsn, xid, body)]
            && c'.nextLsn == c.nextLsn && c'.nextXid == c.nextXid && c'.dpt == c.dpt && c'.files == c.files && c'.cfg == c.cfg
            && c'.ops == c.ops && c'.tx == Buffered(c, lsn, xid, body).tx
  {
    hide FlushLog;
    var c1 := Buffered(c, lsn, xid, body);
    assert FullLog(c1) == FullLog(c) + [MakeRec(c, lsn, xid, body)];
    assert Between(c, c1);
    FlushPlain(c1);
    BetweenThen(c, c1, FlushLog(c1));
    FlushRest(c1);
  }

  lemma FlushRest(c: Core)
    ensures var c' := FlushLog(c);
            && c'.nextLsn == c.nextLsn && c'.nextXid == c.nextXid && c'.dpt == c.dpt && c'.files == c.files && c'.cfg == c.cfg
            && c'.ops == c.ops && c'.tx == c.tx
  {
  }

  lemma EmitPlain(c: Core, lsn: nat, xid: int, body: Body)
    requires !body.EndCkpt?
    ensures Plain(c, EmitWithLsn(c, lsn, xid, body))
  {
    hide FullLog, FlushLog;
    EmitBetween(c, lsn, xid, body);
    FlushPlain(Buffered(c, lsn, xid, body));
  }

  /** The log buffer is flushed exactly when the new record fills it. */
  lemma EmitFlushes(c: Core, lsn: nat, xid: int, body: Body)
    ensures var c' := EmitWithLsn(c, lsn, xid, body); var r := MakeRec(c, lsn, xid, body);
            if |c.logBuf| + 1 >= c.cfg.logBufferSize then c'.wal == FullLog(c) + [r] && c'.logBuf == []
            else c'.wal == c.wal && c'.logBuf == c.logBuf + [r]
  {
    hide AppendStates;
  }

  // ---------------------------------------------------------------- a checkpoint

  /** The two records of a checkpoint and the durable states on the way: the old master record until both records are
      durable, then an empty one, then the LSN of the begin record. */
  lemma CheckpointStates(c: Core) returns (b: Rec, e: Rec)
    ensures b.body == BeginCkpt && b.lsn == c.nextLsn
    ensures e.body == EndCkpt(c.tx, c.dpt) && e.lsn == c.nextLsn + 1
    ensures var c' := Checkpoint(c);
            && c'.wal == FullLog(c) + [b] + [e] && c'.logBuf == [] && c'.master == c.nextLsn && Recorded(c')
            && c'.dpt == c.dpt && c'.tx == c.tx && c'.cfg == c.cfg && c'.nextXid == c.nextXid && c.hist <= c'.hist
            && forall j :: |c.hist| <= j < |c'.hist| ==>
                 || (c'.hist[j].master == c.master && c.wal <= c'.hist[j].wal <= c'.wal)
                 || (c'.hist[j].master == NO_LSN && c'.hist[j].wal == c'.wal)
                 || c'.hist[j] == Now(c')
  {
    hide EmitWithLsn, FlushLog, FullLog, Now, Recorded;
    b := MakeRec(c, c.nextLsn, SYS_XID, BeginCkpt);
    var c1 := Emit(c, SYS_XID, BeginCkpt);
    NextEmitted(c, BeginCkpt);
    e := MakeRec(c1, c1.nextLsn, SYS_XID, EndCkpt(c1.tx, c1.dpt));
    var c2 := Emit(c1, SYS_XID, EndCkpt(c1.tx, c1.dpt));
    NextEmitted(c1, EndCkpt(c1.tx, c1.dpt));
    var c3 := FlushLog(c2);
    FlushPlain(c2);
    FlushRest(c2);
    NothingBuffered(c3);
    BetweenThen(c, c1, c2);
    BetweenThen(c, c2, c3);
    MasterStates(c3, c.nextLsn);
    StatesThen(c, c3, Checkpoint(c));
  }

  lemma NextEmitted(c: Core, body: Body)
    ensures var c' := Emit(c, SYS_XID, body);
            && Between(c, c') && FullLog(c') == FullLog(c) + [MakeRec(c, c.nextLsn, SYS_XID, body)]
            && c'.nextLsn == c.nextLsn + 1 && c'.nextXid == c.nextXid && c'.dpt == c.dpt && c'.tx == c.tx && c'.cfg == c.cfg
  {
    hide EmitWithLsn;
    var c1 := c.(nextLsn := c.nextLsn + 1);
    EmitBetween(c1, c.nextLsn, SYS_XID, body);
    PlainVolatile(c, c1);
    BetweenThen(c, c1, Emit(c, SYS_XID, body));
  }

  lemma MasterStates(c: Core, lsn: int)
    ensures var c' := WriteMaster(c, lsn);
            && Recorded(c') && c'.hist == c.hist + [Durable(c.wal, c.files, NO_LSN), Now(c')] && c'.wal == c.wal
            && c'.logBuf == c.logBuf && c'.dpt == c.dpt && c'.tx == c.tx && c'.nextXid == c.nextXid && c'.master == lsn
  {
  }

  lemma StatesThen(c: Core, c3: Core, c': Core)
    requires Between(c, c3) && c'.hist == c3.hist + [Durable(c3.wal, c3.files, NO_LSN), Now(c')] && c'.wal == c3.wal == FullLog(c3)
    ensures c.hist <= c'.hist
    ensures forall j :: |c.hist| <= j < |c'.hist| ==>
              || (c'.hist[j].master == c.master && c.wal <= c'.hist[j].wal <= c'.wal)
              || (c'.hist[j].master == NO_LSN && c'.hist[j].wal == c'.wal)
              || c'.hist[j] == Now(c')
  {
    hide FullLog, Recorded, Now;
    forall j | |c.hist| <= j < |c'.hist|
      ensures || (c'.hist[j].master == c.master && c.wal <= c'.hist[j].wal <= c'.wal)
              || (c'.hist[j].master == NO_LSN && c'.hist[j].wal == c'.wal)
              || c'.hist[j] == Now(c')
    {
      if j < |c3.hist| {
        assert c'.hist[j] == c3.hist[j];
      } else {
        assert j == |c3.hist| || j == |c3.hist| + 1;
      }
    }
  }

  /** A checkpoint is found again: the next Analysis starts from exactly the tables it was taken of. */
  lemma CheckpointFound(c: Core)
    requires Inv(c) && TxInv(c)
    ensures var c' := Checkpoint(c);
            Analyse(c'.wal, c'.master) == Tables(c.tx, c.dpt) && Completes(c'.wal, c'.master, |c'.wal| - 1)
  {
    hide Checkpoint, Scan, LogInv, CheckpointEnd, FilePart, HistPart, RunPage, TxInv;
    CheckpointInv(c);
    var b, e := CheckpointStates(c);
    var c' := Checkpoint(c);
    NothingBuffered(c');
    TakenLast(FullLog(c), b, e);
    WalOfInv(c');
    CheckpointEndIs(c'.wal, c'.master, |c'.wal| - 1, c'.cfg.pageSize);
    forall i | 0 <= i < |c'.wal| ensures c'.wal[i].lsn <= e.lsn {
      if i < |c'.wal| - 1 {
        LsnsIncrease(c'.wal, i, |c'.wal| - 1, c'.cfg.pageSize);
      }
    }
    ScanNothing(Tables(c.tx, c.dpt), c'.wal, e.lsn);
  }

  lemma WalOfInv(c: Core)
    requires Inv(c) && c.logBuf == []
    ensures c.cfg.pageSize >= HEADER_SIZE && LogInv(c.wal, c.cfg.pageSize)
  {
    NothingBuffered(c);
  }

  lemma TakenLast(log: seq<Rec>, b: Rec, e: Rec)
    requires b.body.BeginCkpt? && e.body.EndCkpt?
    ensures Completes(log + [b] + [e], b.lsn, |log| + 1)
  {
    var all := log + [b] + [e];
    assert all[|log|] == b && all[|log| + 1] == e;
  }

  /** A checkpoint is taken exactly when enough operations have been counted, of the tables at that moment. */
  ghost predicate CheckpointedWhenDue(c: Core, c': Core) {
    if c.ops + 1 >= c.cfg.checkpointInterval then
      c'.ops == 0 && Analyse(c'.wal, c'.master) == Tables(c'.tx, c'.dpt)
    else
      c'.ops == c.ops + 1 && c'.master == c.master && NoneEnded(FullLog(c), FullLog(c'))
  }

  lemma MaybeDue(c: Core)
    requires Inv(c) && TxInv(c)
    ensures var c' := MaybeCheckpoint(c); CheckpointedWhenDue(c, c') && c'.tx == c.tx && c'.dpt == c.dpt && c'.nextXid == c.nextXid
  {
    hide Checkpoint, Analyse, FilePart, HistPart, LogPart, RunPage, TxOk;
    var c1 := c.(ops := c.ops + 1);
    SameCore(c, c1);
    if c1.ops >= c1.cfg.checkpointInterval {
      CheckpointFound(c1);
      var _, _ := CheckpointStates(c1);
    }
  }

  /** A begin counts towards the next checkpoint, and so enters the table that one records. */
  lemma BeginDue(c: Core)
    requires Inv(c) && TxInv(c)
    ensures var c' := BeginTx(c);
            && CheckpointedWhenDue(c, c') && c'.dpt == c.dpt && c'.nextXid == c.nextXid + 1
            && c'.tx == c.tx[c.nextXid as int := TxEntry(Active, NO_LSN)]
  {
    hide MaybeCheckpoint, Analyse, Inv, TxInv;
    NewTxInv(c);
    MaybeDue(NewTx(c));
    PlainVolatile(c, NewTx(c));
  }

  /** So does a logged write, with its page in the table that checkpoint records. */
  lemma UpdateDue(c: Core, xid: int, k: PageKey, before: Option<Bytes>, after: Bytes)
    requires Inv(c) && TxInv(c) && xid in c.tx && c.tx[xid].status == Active && 0 <= xid < c.nextXid
    requires ValidFileId(k.file) && Listable(k.file) && |after| == c.cfg.pageSize && c.nextLsn < LSN_LIMIT
    requires BeforeImage(before, |after|) == Replay(Upd(FullLog(c), k), Zeros(c.cfg.pageSize))
    requires c.cfg.pageSize >= HEADER_SIZE && BeforeImage(before, |after|) != Stamp(after, c.nextLsn)
    ensures var c' := LogPageUpdate(c, Some(xid), k, before, after).0;
            && CheckpointedWhenDue(c, c')
            && c'.tx == c.tx[xid := TxEntry(Active, c.nextLsn)] && c'.dpt == if k in c.dpt then c.dpt else c.dpt[k := c.nextLsn]
  {
    hide MaybeCheckpoint, Analyse, Inv, TxInv, EmitWithLsn, Stamp, DiffRange, BeforeImage, Replay, Upd, FullLog, PageLsn;
    var stamped, full := Stamp(after, c.nextLsn), BeforeImage(before, |after|);
    StampedLsn(after, c.nextLsn);
    UpdateEmitted(c, xid, k, full, stamped);
    var (lo, hi) := DiffRange(full, stamped).value;
    var c1, body := c.(nextLsn := c.nextLsn + 1), Update(k, lo, full[lo..hi], stamped[lo..hi]);
    var c2 := EmitWithLsn(c1, c.nextLsn, xid, body);
    EmitBetween(c1, c.nextLsn, xid, body);
    MaybeDue(AddDirty(c2, k, c.nextLsn));
    UpdateCounted(c, c1, c2, AddDirty(c2, k, c.nextLsn), MaybeCheckpoint(AddDirty(c2, k, c.nextLsn)), MakeRec(c1, c.nextLsn, xid, body));
  }

  lemma UpdateCounted(c: Core, c1: Core, c2: Core, c3: Core, c': Core, r: Rec)
    requires c1 == c.(nextLsn := c1.nextLsn) && FullLog(c2) == FullLog(c1) + [r] && !r.body.EndCkpt?
    requires c2.cfg == c.cfg && c2.ops == c.ops && c2.master == c.master && c3 == c2.(dpt := c3.dpt)
    requires CheckpointedWhenDue(c3, c')
    ensures CheckpointedWhenDue(c, c')
  {
    hide Analyse;
    assert FullLog(c1) == FullLog(c) && FullLog(c3) == FullLog(c2);
    if c.ops + 1 < c.cfg.checkpointInterval {
      NoneEndedThen(FullLog(c), FullLog(c2), FullLog(c'));
    }
  }

  // ---------------------------------------------------------------- what the master record names

  /** Nothing, or a complete checkpoint of the log. */
  ghost predicate Sound(d: Durable) {
    d.master == NO_LSN || exists e: nat :: Completes(d.wal, d.master, e)
  }

  predicate LastEnd(log: seq<Rec>, e: nat) {
    e < |log| && log[e].body.EndCkpt? && NoEndIn(log, e + 1, |log|)
  }

  /** The last complete checkpoint of the log, or nothing when there is none. */
  ghost predicate NamesLast(d: Durable) {
    && (forall e: nat :: LastEnd(d.wal, e) ==> Completes(d.wal, d.master, e))
    && (NoEndIn(d.wal, 0, |d.wal|) ==> d.master == NO_LSN)
  }

  /** The end record of a checkpoint is the last thing in the log: its master record may not have been written. */
  predicate InWindow(d: Durable) {
    d.wal != [] && Last(d.wal).body.EndCkpt?
  }

  /** All durable states so far; with `strict`, the last checkpoint in every state outside the window. */
  ghost predicate Recalled(c: Core, strict: bool) {
    && Recorded(c)
    && (forall j :: 0 <= j < |c.hist| ==> Sound(c.hist[j]) && (strict ==> NamesLast(c.hist[j]) || InWindow(c.hist[j])))
    && (strict ==> NamesLast(Now(c)) && NoneEnded(c.wal, FullLog(c)))
  }

  /** And nothing is overdue. */
  ghost predicate Named(c: Core, strict: bool) {
    Recalled(c, strict) && BufferSmall(c) && OpsSmall(c)
  }

  lemma CompletesStays(log: seq<Rec>, log': seq<Rec>, m: int, e: nat)
    requires log <= log' && Completes(log, m, e)
    ensures Completes(log', m, e)
  {
    var b :| 0 <= b < e && log[b].lsn == m && log[b].body.BeginCkpt? && NoEndIn(log, b + 1, e);
    assert log'[b] == log[b] && log'[e] == log[e];
  }

  lemma SoundStays(d: Durable, d': Durable)
    requires Sound(d) && d'.master == d.master && d.wal <= d'.wal
    ensures Sound(d')
  {
    hide Completes;
    if d.master != NO_LSN {
      var e: nat :| Completes(d.wal, d.master, e);
      CompletesStays(d.wal, d'.wal, d.master, e);
    }
  }

  lemma CurrentStays(d: Durable, d': Durable)
    requires NamesLast(d) && d'.master == d.master && NoneEnded(d.wal, d'.wal)
    ensures NamesLast(d')
  {
    hide Completes;
    forall e: nat | LastEnd(d'.wal, e) ensures Completes(d'.wal, d'.master, e) {
      assert e < |d.wal|;
      assert LastEnd(d.wal, e) by {
        assert d'.wal[e] == d.wal[e];
        forall j | e + 1 <= j < |d.wal| ensures !d.wal[j].body.EndCkpt? {
          assert d'.wal[j] == d.wal[j];
        }
      }
      CompletesStays(d.wal, d'.wal, d.master, e);
    }
    if NoEndIn(d'.wal, 0, |d'.wal|) {
      forall j | 0 <= j < |d.wal| ensures !d.wal[j].body.EndCkpt? {
        assert d'.wal[j] == d.wal[j];
      }
    }
  }

  lemma PrefixNoneEnded(wal: seq<Rec>, mid: seq<Rec>, log: seq<Rec>)
    requires NoneEnded(wal, log) && wal <= mid <= log
    ensures NoneEnded(wal, mid)
  {
    forall j | |wal| <= j < |mid| ensures !mid[j].body.EndCkpt? {
      assert mid[j] == log[j];
    }
  }

  lemma PlainRecalled(c: Core, c': Core, strict: bool)
    requires Recalled(c, strict) && Plain(c, c')
    ensures Recalled(c', strict)
  {
    hide Sound, NamesLast, InWindow, FullLog;
    if strict {
      NoneEndedThen(c.wal, FullLog(c), FullLog(c'));
    }
    forall j | |c.hist| <= j < |c'.hist| ensures Sound(c'.hist[j]) && (strict ==> NamesLast(c'.hist[j])) {
      SoundStays(Now(c), c'.hist[j]);
      if strict {
        PrefixNoneEnded(c.wal, c'.hist[j].wal, FullLog(c'));
        CurrentStays(Now(c), c'.hist[j]);
      }
    }
    if strict {
      WalPrefix(c');
      PrefixNoneEnded(c.wal, c'.wal, FullLog(c'));
      CurrentStays(Now(c), Now(c'));
      NoneEndedRest(c.wal, c'.wal, FullLog(c'));
    }
  }

  lemma PlainNamed(c: Core, c': Core, strict: bool)
    requires Named(c, strict) && Plain(c, c')
    ensures Named(c', strict)
  {
    hide Recalled, Between, NoneEnded;
    PlainRecalled(c, c', strict);
  }

  lemma WalPrefix(c: Core)
    ensures c.wal <= FullLog(c)
  {
  }

  lemma NoneEndedThen(a: seq<Rec>, b: seq<Rec>, d: seq<Rec>)
    requires NoneEnded(a, b) && NoneEnded(b, d)
    ensures NoneEnded(a, d)
  {
    forall j | |a| <= j < |d| ensures !d[j].body.EndCkpt? {
      if j < |b| {
        assert d[j] == b[j];
      }
    }
  }

  lemma NoneEndedRest(a: seq<Rec>, b: seq<Rec>, d: seq<Rec>)
    requires NoneEnded(a, d) && a <= b <= d
    ensures NoneEnded(b, d)
  {
  }

  lemma CheckpointRecalled(c: Core, strict: bool)
    requires Recalled(c, strict)
    ensures Recalled(Checkpoint(c), strict)
  {
    hide Sound, NamesLast, InWindow, FullLog, Checkpoint, Completes;
    var b, e := CheckpointStates(c);
    var c' := Checkpoint(c);
    NothingBuffered(c');
    TakenLast(FullLog(c), b, e);
    TakenIsLast(FullLog(c), b, e, Now(c'));
    WalPrefix(c);
    forall j | |c.hist| <= j < |c'.hist| ensures Sound(c'.hist[j]) && (strict ==> NamesLast(c'.hist[j]) || InWindow(c'.hist[j])) {
      if c'.hist[j].master == c.master && c.wal <= c'.hist[j].wal <= c'.wal {
        SoundStays(Now(c), c'.hist[j]);
        if strict {
          BeforeMaster(c, b, e, c'.hist[j]);
        }
      } else if c'.hist[j] != Now(c') {
        EmptyMaster(c'.hist[j], FullLog(c) + [b], e);
      }
    }
  }

  lemma TakenIsLast(log: seq<Rec>, b: Rec, e: Rec, d: Durable)
    requires b.body.BeginCkpt? && e.body.EndCkpt? && d.wal == log + [b] + [e] && d.master == b.lsn
    ensures Sound(d) && NamesLast(d)
  {
    hide Completes;
    TakenLast(log, b, e);
    assert d.wal[|d.wal| - 1] == e;
    forall i: nat | LastEnd(d.wal, i) ensures i == |log| + 1 {
    }
  }

  /** While the records are appended: the old checkpoint until the end record is there. */
  lemma BeforeMaster(c: Core, b: Rec, e: Rec, d: Durable)
    requires NamesLast(Now(c)) && NoneEnded(c.wal, FullLog(c)) && b.body.BeginCkpt? && e.body.EndCkpt?
    requires d.master == c.master && c.wal <= d.wal <= FullLog(c) + [b] + [e]
    ensures NamesLast(d) || InWindow(d)
  {
    hide NamesLast;
    var log := FullLog(c) + [b] + [e];
    if |d.wal| == |log| {
      assert d.wal == log;
    } else {
      assert d.wal <= FullLog(c) + [b];
      forall j | |c.wal| <= j < |d.wal| ensures !d.wal[j].body.EndCkpt? {
        assert d.wal[j] == log[j];
        assert j < |FullLog(c)| ==> log[j] == FullLog(c)[j];
      }
      CurrentStays(Now(c), d);
    }
  }

  lemma EmptyMaster(d: Durable, log: seq<Rec>, e: Rec)
    requires d.master == NO_LSN && d.wal == log + [e] && e.body.EndCkpt?
    ensures Sound(d) && InWindow(d)
  {
  }

  // ---------------------------------------------------------------- the operations

  /** Counting an operation touches nothing durable. */
  lemma OpsRecalled(c: Core, c': Core, strict: bool)
    requires Recalled(c, strict) && c' == c.(ops := c'.ops)
    ensures Recalled(c', strict)
  {
    hide Sound, NamesLast, InWindow;
  }

  lemma MaybeCheckpointNamed(c: Core, strict: bool)
    requires Named(c, strict)
    ensures Named(MaybeCheckpoint(c), strict)
  {
    hide Recalled, Checkpoint;
    var c1 := c.(ops := c.ops + 1);
    OpsRecalled(c, c1, strict);
    if c1.ops >= c1.cfg.checkpointInterval {
      CheckpointRecalled(c1, strict);
      var _, _ := CheckpointStates(c1);
      OpsRecalled(Checkpoint(c1), MaybeCheckpoint(c), strict);
    }
  }

  lemma BeginNamed(c: Core, strict: bool)
    requires Named(c, strict)
    ensures Named(BeginTx(c), strict)
  {
    hide Named, Plain, MaybeCheckpoint;
    PlainVolatile(c, NewTx(c));
    PlainNamed(c, NewTx(c), strict);
    MaybeCheckpointNamed(NewTx(c), strict);
  }

  lemma EmitNextPlain(c: Core, xid: int, body: Body)
    requires !body.EndCkpt?
    ensures Plain(c, Emit(c, xid, body))
  {
    hide Plain, EmitWithLsn;
    var c1 := c.(nextLsn := c.nextLsn + 1);
    PlainVolatile(c, c1);
    EmitPlain(c1, c.nextLsn, xid, body);
    PlainThen(c, c1, Emit(c, xid, body));
  }

  lemma CommitPlain(c: Core, xid: int)
    ensures Plain(c, CommitTx(c, xid))
  {
    hide Plain, Emit, FlushLog;
    var c1 := Emit(c, xid, Commit);
    EmitNextPlain(c, xid, Commit);
    FlushPlain(c1);
    var c2 := SetCommitted(FlushLog(c1), xid);
    PlainVolatile(FlushLog(c1), c2);
    var c3 := Emit(c2, xid, End);
    EmitNextPlain(c2, xid, End);
    FlushPlain(c3);
    PlainVolatile(FlushLog(c3), CommitTx(c, xid));
    PlainThen(c, c1, FlushLog(c1));
    PlainThen(c, FlushLog(c1), c2);
    PlainThen(c, c2, c3);
    PlainThen(c, c3, FlushLog(c3));
    PlainThen(c, FlushLog(c3), CommitTx(c, xid));
  }

  lemma UpdateNamed(c: Core, xid: int, k: PageKey, before: Option<Bytes>, after: Bytes, strict: bool)
    requires Named(c, strict) && |after| >= HEADER_SIZE
    ensures Named(LogPageUpdate(c, Some(xid), k, before, after).0, strict)
  {
    hide Named, Plain, MaybeCheckpoint, EmitWithLsn, DiffRange, Stamp, BeforeImage;
    var c1 := c.(nextLsn := c.nextLsn + 1);
    PlainVolatile(c, c1);
    PlainNamed(c, c1, strict);
    var stamped := Stamp(after, c.nextLsn);
    var full := BeforeImage(before, |stamped|);
    match DiffRange(full, stamped)
    case None =>
    case Some((lo, hi)) =>
      UpdateTailNamed(c1, c.nextLsn, xid, k, Update(k, lo, full[lo..hi], stamped[lo..hi]), strict);
  }

  lemma UpdateTailNamed(c: Core, lsn: nat, xid: int, k: PageKey, body: Body, strict: bool)
    requires Named(c, strict) && !body.EndCkpt?
    ensures Named(MaybeCheckpoint(AddDirty(EmitWithLsn(c, lsn, xid, body), k, lsn)), strict)
  {
    hide Named, Plain, MaybeCheckpoint, EmitWithLsn;
    var c1 := EmitWithLsn(c, lsn, xid, body);
    EmitPlain(c, lsn, xid, body);
    PlainVolatile(c1, AddDirty(c1, k, lsn));
    PlainThen(c, c1, AddDirty(c1, k, lsn));
    PlainNamed(c, AddDirty(c1, k, lsn), strict);
    MaybeCheckpointNamed(AddDirty(c1, k, lsn), strict);
  }

  // ---------------------------------------------------------------- page writes and the pool

  /** A new state of the files. */
  lemma PlainMark(c: Core, c': Core)
    requires c' == Mark(c.(files := c'.files, numPages := c'.numPages))
    ensures Plain(c, c')
  {
    assert c.wal <= FullLog(c);
  }

  lemma CreatePlain(c: Core, f: string)
    ensures Plain(c, CreateFile(c, f))
  {
    hide Plain;
    if f in c.files {
      PlainSelf(c);
    } else {
      PlainMark(c, CreateFile(c, f));
    }
  }

  lemma DiskWritePlain(c: Core, k: PageKey, data: Bytes)
    ensures Plain(c, DiskWrite(c, k, data).0)
  {
    hide Plain, CreateFile, PutPage;
    PlainSelf(c);
    CreatePlain(c, k.file);
    var c1 := CreateFile(c, k.file);
    if ValidFileId(k.file) && |data| == c.cfg.pageSize && k.pid <= NumPages(c1, k.file) {
      RawPlain(c, k, data);
      PlainThen(c, c1, RawWrite(c1, k, data));
    }
  }

  lemma RawPlain(c: Core, k: PageKey, data: Bytes)
    ensures k.file in CreateFile(c, k.file).files
    ensures var c1 := CreateFile(c, k.file); Plain(c1, RawWrite(c1, k, data))
  {
    hide Plain, PutPage;
    var c1 := CreateFile(c, k.file);
    PlainMark(c1, RawWrite(c1, k, data));
  }

  lemma WriteBackPlain(c: Core, k: PageKey, data: Bytes)
    requires |data| >= HEADER_SIZE
    ensures Plain(c, WriteBack(c, k, data).0)
  {
    hide Plain, DiskWrite, FlushLog, PageLsn;
    var c1 := FlushLogUpTo(c, PageLsn(data));
    PlainSelf(c);
    FlushPlain(c);
    DiskWritePlain(c1, k, data);
    var c2 := DiskWrite(c1, k, data).0;
    PlainThen(c, c1, c2);
    PlainVolatile(c2, PageFlushed(c2, k));
    PlainThen(c, c2, PageFlushed(c2, k));
  }

  lemma MakeRoomPlain(s: Sys)
    requires FramesOk(s)
    ensures Plain(s.core, MakeRoom(s).0.core)
  {
    hide Plain, WriteBack;
    PlainSelf(s.core);
    if |s.order| >= s.poolSize {
      var v := VictimOf(s.policy, s.order);
      assert v in s.order;
      WriteBackPlain(s.core, v, s.frames[v]);
    }
  }

  lemma GetPagePlain(s: Sys, k: PageKey)
    requires FramesOk(s)
    ensures Plain(s.core, GetPage(s, k).0.core)
  {
    hide Plain, MakeRoom, DiskRead;
    PlainSelf(s.core);
    MakeRoomPlain(s);
  }

  lemma StoreFramePlain(s: Sys, k: PageKey, data: Bytes)
    requires FramesOk(s)
    ensures Plain(s.core, StoreFrame(s, k, data).0.core)
  {
    hide Plain, MakeRoom;
    PlainSelf(s.core);
    MakeRoomPlain(s);
  }

  lemma AllocatePlain(s: Sys, f: string)
    requires FramesOk(s)
    ensures Plain(s.core, AllocatePage(s, f).0.core)
  {
    hide Plain, MakeRoom, CreateFile;
    var c1 := if f in s.core.numPages then s.core else CreateFile(s.core, f);
    PlainSelf(s.core);
    CreatePlain(s.core, f);
    var (c, pid) := DiskAllocate(s.core, f);
    PlainVolatile(c1, c);
    PlainThen(s.core, c1, c);
    var s1 := s.(core := c);
    assert c.cfg == s.core.cfg;
    MakeRoomPlain(s1);
    PlainThen(s.core, c, MakeRoom(s1).0.core);
  }

  lemma {:induction false} FlushFramesPlain(s: Sys, ks: seq<PageKey>)
    requires FramesOk(s) && forall k :: k in ks ==> k in s.frames
    ensures Plain(s.core, FlushFrames(s, ks).0.core)
    decreases |ks|
  {
    hide Plain, WriteBack;
    PlainSelf(s.core);
    if ks != [] {
      if !IsDirty(s, ks[0]) {
        FlushFramesPlain(s, ks[1..]);
      } else {
        var (c, ok) := WriteBack(s.core, ks[0], s.frames[ks[0]]);
        WriteBackPlain(s.core, ks[0], s.frames[ks[0]]);
        if ok {
          WriteBackCfg(s.core, ks[0], s.frames[ks[0]]);
          FlushFramesPlain(s.(core := c, dirty := s.dirty[ks[0] := false]), ks[1..]);
          PlainThen(s.core, c, FlushFrames(s, ks).0.core);
        }
      }
    }
  }

  lemma WriteBackCfg(c: Core, k: PageKey, data: Bytes)
    requires |data| >= HEADER_SIZE
    ensures WriteBack(c, k, data).0.cfg == c.cfg
  {
    hide FlushLog, PageLsn, PutPage;
  }

  lemma WritePageNamed(s: Sys, xid: int, k: PageKey, data: Bytes, strict: bool)
    requires FramesOk(s) && Named(s.core, strict)
    ensures Named(WritePage(s, Some(xid), k, data).0.core, strict)
  {
    hide Named, Plain, LogPageUpdate, StoreFrame, CurrentBytes;
    if ValidWrite(s.core, k, data) {
      UpdateNamed(s.core, xid, k, CurrentBytes(s, k), data, strict);
      var (c, page) := LogPageUpdate(s.core, Some(xid), k, CurrentBytes(s, k), data);
      StoreFramePlain(s.(core := c), k, page);
      PlainNamed(c, StoreFrame(s.(core := c), k, page).0.core, strict);
    }
  }

  lemma ApplyNamed(s: Sys, op: Op, strict: bool)
    requires FramesOk(s) && Named(s.core, strict)
    ensures Named(Apply(s, op).core, strict)
  {
    hide Named, Plain, FramesOk, BeginTx, CommitTx, FlushLog, CreateFile, GetPage, WritePage, AllocatePage, FlushFrames;
    match op
    case Begin => BeginNamed(s.core, strict);
    case Write(xid, k, data) => WritePageNamed(s, xid, k, data, strict);
    case CommitOp(xid) =>
      CommitPlain(s.core, xid);
      PlainNamed(s.core, CommitTx(s.core, xid), strict);
    case Read(k) =>
      GetPagePlain(s, k);
      PlainNamed(s.core, GetPage(s, k).0.core, strict);
    case Allocate(f) =>
      AllocatePlain(s, f);
      PlainNamed(s.core, AllocatePage(s, f).0.core, strict);
    case NewFile(f) =>
      CreatePlain(s.core, f);
      PlainNamed(s.core, CreateFile(s.core, f), strict);
    case FlushPages =>
      AllFramed(s);
      FlushFramesPlain(s, s.order);
      PlainNamed(s.core, FlushFrames(s, s.order).0.core, strict);
    case ForceLog =>
      FlushPlain(s.core);
      PlainNamed(s.core, FlushLog(s.core), strict);
  }

  lemma AllFramed(s: Sys)
    requires FramesOk(s)
    ensures forall k :: k in s.order ==> k in s.frames
  {
  }

  // ---------------------------------------------------------------- recovery

  lemma {:induction false} ZerosPlain(c: Core, f: string, n: nat)
    ensures Plain(c, WriteZeros(c, f, n))
    decreases n
  {
    hide Plain, DiskWrite;
    if n == 0 {
      PlainSelf(c);
    } else {
      var c1 := DiskWrite(c, PageKey(f, NumPages(c, f)), Zeros(c.cfg.pageSize)).0;
      DiskWritePlain(c, PageKey(f, NumPages(c, f)), Zeros(c.cfg.pageSize));
      ZerosPlain(c1, f, n - 1);
      PlainThen(c, c1, WriteZeros(c, f, n));
    }
  }

  lemma ApplyPlain(c: Core, r: Rec)
    requires r.body.Update?
    ensures Plain(c, ApplyRec(c, r))
  {
    hide Plain, DiskWrite, Patch, DiskRead;
    match DiskRead(c, r.body.key)
    case None => PlainSelf(c);
    case Some(data) => DiskWritePlain(c, r.body.key, Patch(data, r));
  }

  lemma RedoRecPlain(c: Core, r: Rec)
    ensures Plain(c, RedoRec(c, r))
  {
    hide Plain, WriteZeros, CreateFile, ApplyRec, DiskRead, PageLsn, NumPages;
    PlainSelf(c);
    if r.body.Update? {
      var k := r.body.key;
      CreatePlain(c, k.file);
      var c1 := if FileExists(c, k.file) then c else CreateFile(c, k.file);
      ZerosPlain(c1, k.file, MissingPages(c1, k));
      PlainThen(c, c1, EnsurePage(c, k));
      ApplyPlain(c, r);
      ApplyPlain(EnsurePage(c, k), r);
      PlainThen(c, EnsurePage(c, k), ApplyRec(EnsurePage(c, k), r));
    }
  }

  lemma {:induction false} RedoPlain(c: Core, recs: seq<Rec>)
    ensures Plain(c, RedoAll(c, recs))
  {
    hide Plain, RedoRec;
    if recs == [] {
      PlainSelf(c);
    } else {
      RedoPlain(c, Front(recs));
      RedoRecPlain(RedoAll(c, Front(recs)), Last(recs));
      PlainThen(c, RedoAll(c, Front(recs)), RedoAll(c, recs));
    }
  }

  lemma CloseTxPlain(c: Core, x: int)
    ensures Plain(c, CloseTx(c, x))
  {
    hide Plain, Emit;
    EmitNextPlain(c, x, End);
    PlainVolatile(Emit(c, x, End), CloseTx(c, x));
    PlainThen(c, Emit(c, x, End), CloseTx(c, x));
  }

  lemma UndoRecPlain(c: Core, r: Rec, losers: set<int>)
    ensures Plain(c, UndoRec(c, r, losers))
  {
    hide Plain, CloseTx, DiskWrite, DiskRead, Unpatch;
    PlainSelf(c);
    if r.body.Update? && r.xid in losers {
      match DiskRead(c, r.body.key) {
        case None =>
        case Some(data) => DiskWritePlain(c, r.body.key, Unpatch(data, r));
      }
      var c1 := RestorePage(c, r);
      CloseTxPlain(c1, r.xid);
      PlainThen(c, c1, CloseTx(c1, r.xid));
    }
  }

  lemma {:induction false} UndoPlain(c: Core, recs: seq<Rec>, losers: set<int>)
    ensures Plain(c, UndoAll(c, recs, losers))
    decreases |recs|
  {
    hide Plain, UndoRec;
    if recs == [] {
      PlainSelf(c);
    } else {
      UndoRecPlain(c, Last(recs), losers);
      UndoPlain(UndoRec(c, Last(recs), losers), Front(recs), losers);
      PlainThen(c, UndoRec(c, Last(recs), losers), UndoAll(c, recs, losers));
    }
  }

  lemma {:induction false} ClosePlain(c: Core, xs: seq<int>)
    ensures Plain(c, CloseAll(c, xs))
    decreases |xs|
  {
    hide Plain, CloseTx;
    if xs == [] {
      PlainSelf(c);
    } else {
      CloseTxPlain(c, xs[0]);
      ClosePlain(CloseTx(c, xs[0]), xs[1..]);
      PlainThen(c, CloseTx(c, xs[0]), CloseAll(c, xs));
    }
  }

  /** Recovery never touches the master record, and completes no checkpoint. */
  lemma RecoverPlain(cfg: Config, hist: seq<Durable>, xs: seq<int>)
    requires hist != []
    ensures Plain(Restart(cfg, hist), Recover(cfg, hist, xs))
  {
    hide Plain, RedoAll, UndoAll, CloseAll, FlushLog, Analyse, MaxXid;
    var c0 := Restart(cfg, hist);
    PlainSelf(c0);
    if c0.wal != [] {
      var c := Analysed(cfg, hist);
      PlainVolatile(c0, c);
      RedoPlain(c, c0.wal);
      var c1 := RedoAll(c, c0.wal);
      var c2 := UndoAll(c1, c0.wal, UndoLosers(c1.tx));
      UndoPlain(c1, c0.wal, UndoLosers(c1.tx));
      var c3 := CloseAll(c2, xs);
      ClosePlain(c2, xs);
      FlushPlain(c3);
      PlainThen(c0, c, c1);
      PlainThen(c0, c1, c2);
      PlainThen(c0, c2, c3);
      PlainThen(c0, c3, FlushLog(c3));
    }
  }

  /** Durable states that recovery may start from. */
  ghost predicate NamedHist(hist: seq<Durable>, strict: bool) {
    && hist != []
    && (forall j :: 0 <= j < |hist| ==> Sound(hist[j]) && (strict ==> NamesLast(hist[j]) || InWindow(hist[j])))
    && (strict ==> NamesLast(Last(hist)))
  }

  lemma RestartNamed(cfg: Config, hist: seq<Durable>, strict: bool)
    requires NamedHist(hist, strict)
    ensures Named(Restart(cfg, hist), strict)
  {
    hide MaxXid, Sound, NamesLast, InWindow;
    var c := Restart(cfg, hist);
    NothingBuffered(c);
  }

  /** After any of its states recovery may be cut off. */
  lemma RecoverNamed(cfg: Config, hist: seq<Durable>, xs: seq<int>, j: nat, strict: bool)
    requires NamedHist(hist, strict) && |hist| - 1 <= j < |Recover(cfg, hist, xs).hist|
    ensures Named(Recover(cfg, hist, xs), strict) && NamedHist(Recover(cfg, hist, xs).hist[..j + 1], strict)
  {
    hide Recover, Plain, Named, MaxXid, Sound, NamesLast, InWindow, Restart;
    var c, c' := Restart(cfg, hist), Recover(cfg, hist, xs);
    RestartNamed(cfg, hist, strict);
    RecoverPlain(cfg, hist, xs);
    PlainNamed(c, c', strict);
    NamedStates(cfg, hist, c', strict);
    if strict {
      CurrentFrom(cfg, hist, c', j);
    }
  }

  lemma NamedStates(cfg: Config, hist: seq<Durable>, c: Core, strict: bool)
    requires Named(c, strict)
    ensures forall j :: 0 <= j < |c.hist| ==> Sound(c.hist[j]) && (strict ==> NamesLast(c.hist[j]) || InWindow(c.hist[j]))
  {
    hide Sound, NamesLast, InWindow;
  }

  lemma CurrentFrom(cfg: Config, hist: seq<Durable>, c: Core, j: nat)
    requires hist != [] && NamesLast(Last(hist)) && Plain(Restart(cfg, hist), c) && |hist| - 1 <= j < |c.hist|
    ensures NamesLast(c.hist[j])
  {
    hide NamesLast, MaxXid, Recorded;
    var c0 := Restart(cfg, hist);
    NothingBuffered(c0);
    if j >= |hist| {
      PrefixNoneEnded(c0.wal, c.hist[j].wal, FullLog(c));
      CurrentStays(Last(hist), c.hist[j]);
    } else {
      assert c.hist[j] == hist[j];
    }
  }

  lemma {:induction false} CutsNamed(cfg: Config, hist: seq<Durable>, cuts: seq<Runs.Cut>, strict: bool)
    requires NamedHist(hist, strict) && CutsOk(cfg, hist, cuts)
    ensures NamedHist(AfterCuts(cfg, hist, cuts), strict)
    decreases |cuts|
  {
    hide Recover, NamedHist, Named, CleanStart;
    if cuts != [] {
      HistNotEmpty(hist, strict);
      RecoverNamed(cfg, hist, cuts[0].xs, cuts[0].j, strict);
      CutsNamed(cfg, Recover(cfg, hist, cuts[0].xs).hist[..cuts[0].j + 1], cuts[1..], strict);
    }
  }

  lemma HistNotEmpty(hist: seq<Durable>, strict: bool)
    requires NamedHist(hist, strict)
    ensures hist != []
  {
  }

  // ---------------------------------------------------------------- whole runs

  /** No crash of the step falls between the end record of a checkpoint and its master record. */
  ghost predicate OutsideWindow(s: Sys, step: Step)
    requires FramesOk(s) && StepOk(s, step)
  {
    step.CrashIn? ==> !InWindow(Last(CrashHist(s, step.op, step.j)))
  }

  lemma NextNamed(s: Sys, step: Step, strict: bool)
    requires SysInv(s) && StepOk(s, step) && Named(s.core, strict) && (strict ==> OutsideWindow(s, step))
    ensures Named(Next(s, step).core, strict)
  {
    hide Inv, TxInv, Content, Placed, Apply, Recover, Named, NamedHist, CutsOk, AfterCuts, CleanStart, NamesLast, InWindow, Sound;
    match step
    case Do(op) => ApplyNamed(s, op, strict);
    case CrashIn(op, j, cuts, xs) =>
      ApplyNamed(s, op, strict);
      var h := CrashHist(s, op, j);
      CrashNamed(Apply(s, op).core, j, strict);
      CutsNamed(s.core.cfg, h, cuts, strict);
      var h1 := AfterCuts(s.core.cfg, h, cuts);
      HistNotEmpty(h1, strict);
      RecoverLonger(s.core.cfg, h1, xs);
      RecoverNamed(s.core.cfg, h1, xs, |h1| - 1, strict);
  }

  lemma CrashNamed(c: Core, j: nat, strict: bool)
    requires Named(c, strict) && j < |c.hist| && (strict ==> !InWindow(Last(c.hist[..j + 1])))
    ensures NamedHist(c.hist[..j + 1], strict)
  {
    hide Sound, NamesLast, InWindow;
    assert Last(c.hist[..j + 1]) == c.hist[j];
  }

  lemma RecoverLonger(cfg: Config, hist: seq<Durable>, xs: seq<int>)
    requires hist != []
    ensures |hist| <= |Recover(cfg, hist, xs).hist|
  {
    hide Recover, MaxXid;
    RecoverPlain(cfg, hist, xs);
  }

  ghost predicate RunOutside(s: Sys, steps: seq<Step>)
    requires SysInv(s) && Legal(s, steps)
    decreases |steps|
  {
    steps == [] || (OutsideWindow(s, steps[0]) && (NextInv(s, steps[0]); RunOutside(Next(s, steps[0]), steps[1..])))
  }

  lemma {:induction false} RunNamed(s: Sys, steps: seq<Step>, strict: bool)
    requires SysInv(s) && Legal(s, steps) && Named(s.core, strict) && (strict ==> RunOutside(s, steps))
    ensures Named(Run(s, steps).core, strict)
    decreases |steps|
  {
    hide SysInv, Named, Next, StepOk, OutsideWindow;
    if steps != [] {
      StepFrames(s, steps);
      NextInv(s, steps[0]);
      NextNamed(s, steps[0], strict);
      RunNamed(Next(s, steps[0]), steps[1..], strict);
    }
  }

  lemma StepFrames(s: Sys, steps: seq<Step>)
    requires SysInv(s) && Legal(s, steps) && steps != []
    ensures FramesOk(s) && StepOk(s, steps[0])
  {
    hide StepOk;
  }

  lemma FreshNamed(cfg: Config, poolSize: nat, policy: Policy)
    ensures Named(Fresh(cfg, poolSize, policy).core, true)
  {
  }

  lemma NamedLoose(c: Core)
    requires Named(c, true)
    ensures Named(c, false)
  {
    hide Sound, NamesLast, InWindow;
  }

  /** A run from an empty directory, and the engine it ends in. */
  ghost predicate FreshRun(cfg: Config, poolSize: nat, policy: Policy, steps: seq<Step>) {
    && cfg.pageSize >= HEADER_SIZE && poolSize >= 1
    && (FreshInv(cfg, poolSize, policy); Legal(Fresh(cfg, poolSize, policy), steps))
  }

  ghost function FreshEnd(cfg: Config, poolSize: nat, policy: Policy, steps: seq<Step>): (s: Sys)
    requires FreshRun(cfg, poolSize, policy, steps)
    ensures SysInv(s)
  {
    FreshInv(cfg, poolSize, policy);
    Run(Fresh(cfg, poolSize, policy), steps)
  }

  ghost predicate NoneInWindow(cfg: Config, poolSize: nat, policy: Policy, steps: seq<Step>)
    requires FreshRun(cfg, poolSize, policy, steps)
  {
    FreshInv(cfg, poolSize, policy);
    RunOutside(Fresh(cfg, poolSize, policy), steps)
  }

  /** In every durable state of every run from an empty directory, crashes and restarts included, master.rec names
      nothing or a complete checkpoint of wal.log. */
  lemma MasterSound(cfg: Config, poolSize: nat, policy: Policy, steps: seq<Step>)
    requires FreshRun(cfg, poolSize, policy, steps)
    ensures var c := FreshEnd(cfg, poolSize, policy, steps).core; forall j :: 0 <= j < |c.hist| ==> Sound(c.hist[j])
  {
    hide SysInv, Sound, NamesLast, InWindow, Run, Legal;
    FreshInv(cfg, poolSize, policy);
    FreshNamed(cfg, poolSize, policy);
    NamedLoose(Fresh(cfg, poolSize, policy).core);
    RunNamed(Fresh(cfg, poolSize, policy), steps, false);
  }

  /** Where no crash of the run fell into the window of a checkpoint, it names the last complete one in every durable
      state outside such a window, and between any two operations. */
  lemma MasterCurrent(cfg: Config, poolSize: nat, policy: Policy, steps: seq<Step>)
    requires FreshRun(cfg, poolSize, policy, steps) && NoneInWindow(cfg, poolSize, policy, steps)
    ensures var c := FreshEnd(cfg, poolSize, policy, steps).core;
            && NamesLast(Now(c))
            && forall j :: 0 <= j < |c.hist| ==> NamesLast(c.hist[j]) || InWindow(c.hist[j])
  {
    hide SysInv, Sound, NamesLast, InWindow, Run, Legal, RunOutside;
    FreshInv(cfg, poolSize, policy);
    FreshNamed(cfg, poolSize, policy);
    RunNamed(Fresh(cfg, poolSize, policy), steps, true);
  }

  /** From such a state Analysis starts at the last complete checkpoint, or scans everything when there is none. */
  lemma StartsAtLast(d: Durable, ps: nat)
    requires ps >= HEADER_SIZE && LogInv(d.wal, ps) && NamesLast(d)
    ensures forall e: nat :: LastEnd(d.wal, e) ==> CheckpointEnd(d.wal, d.master) == Some(e)
    ensures NoEndIn(d.wal, 0, |d.wal|) ==> CheckpointEnd(d.wal, d.master) == None
  {
    hide LogInv, CheckpointEnd, Completes, LastEnd;
    forall e: nat | LastEnd(d.wal, e) ensures CheckpointEnd(d.wal, d.master) == Some(e) {
      CheckpointEndIs(d.wal, d.master, e, ps);
    }
    NoEndNone(d.wal, d.master);
  }

  lemma NoEndNone(log: seq<Rec>, m: int)
    ensures NoEndIn(log, 0, |log|) ==> CheckpointEnd(log, m) == None
  {
    hide FindBegin, FindEnd;
    var e := CheckpointEnd(log, m);
    assert e.Some? ==> !NoEndIn(log, 0, |log|);
  }

  /** In every reachable state the log buffer is below its limit and no checkpoint is overdue. */
  lemma NothingOverdue(cfg: Config, poolSize: nat, policy: Policy, steps: seq<Step>)
    requires FreshRun(cfg, poolSize, policy, steps)
    ensures var c := FreshEnd(cfg, poolSize, policy, steps).core; BufferSmall(c) && OpsSmall(c)
  {
    hide SysInv, Recalled, Run, Legal;
    FreshInv(cfg, poolSize, policy);
    FreshNamed(cfg, poolSize, policy);
    NamedLoose(Fresh(cfg, poolSize, policy).core);
    RunNamed(Fresh(cfg, poolSize, policy), steps, false);
  }
}
