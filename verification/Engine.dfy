/** The engine below the buffer pool as a value: what is durable, what is volatile, and what
    each operation of the disk layer and the recovery manager does to it.

    `hist` lists the durable states passed through so far, one after every append to wal.log,
    page write, file creation, and opening or write of master.rec. A crash can happen at any of them. */
module Engine {
  import opened Pages
  import opened Log

  type Files = map<string, seq<Bytes>>

  /** What survives a crash. */
  datatype Durable = Durable(wal: seq<Rec>, files: Files, master: int)

  datatype Config = Config(pageSize: nat, logBufferSize: int, checkpointInterval: int)

  datatype Core = Core(
    cfg: Config,
    // durable
    wal: seq<Rec>, files: Files, master: int, hist: seq<Durable>,
    // volatile: disk manager
    numPages: map<string, nat>,
    // volatile: recovery manager
    logBuf: seq<Rec>, tx: map<int, TxEntry>, dpt: map<PageKey, nat>,
    nextLsn: nat, flushedLsn: int, nextXid: nat, ops: nat)

  function Now(c: Core): Durable {
    Durable(c.wal, c.files, c.master)
  }

  function Mark(c: Core): Core {
    c.(hist := c.hist + [Now(c)])
  }

  /** Every record emitted so far. */
  function FullLog(c: Core): seq<Rec> {
    c.wal + c.logBuf
  }

  // ---------------------------------------------------------------- disk space manager

  function NumPages(c: Core, f: string): nat {
    if f in c.numPages then c.numPages[f] else 0
  }

  predicate FileExists(c: Core, f: string) {
    ValidFileId(f) && f in c.files
  }

  /** Page content on disk; what lies beyond the end of a file reads as zeros. */
  function DiskPage(files: Files, ps: nat, k: PageKey): Bytes {
    if k.file in files && k.pid < |files[k.file]| then files[k.file][k.pid] else Zeros(ps)
  }

  /** Seek and write: a write past the end of the file leaves a hole of zeros. */
  function PutPage(files: Files, ps: nat, k: PageKey, data: Bytes): Files
    requires k.file in files
  {
    var pages := files[k.file];
    files[k.file := if k.pid < |pages| then pages[k.pid := data]
                    else pages + seq(k.pid - |pages|, _ => Zeros(ps)) + [data]]
  }

  function CreateFile(c: Core, f: string): (r: Core)
    ensures r.cfg == c.cfg
  {
    if f in c.files then c else Mark(c.(files := c.files[f := []], numPages := c.numPages[f := 0]))
  }

  function RawWrite(c: Core, k: PageKey, data: Bytes): Core
    requires k.file in c.files
  {
    Mark(c.(files := PutPage(c.files, c.cfg.pageSize, k, data),
            numPages := if k.pid >= NumPages(c, k.file) then c.numPages[k.file := k.pid + 1] else c.numPages))
  }

  /** `write_page`: the new state, and whether the write succeeded. */
  function DiskWrite(c: Core, k: PageKey, data: Bytes): (r: (Core, bool))
    ensures r.0 == c.(files := r.0.files, numPages := r.0.numPages, hist := r.0.hist)
  {
    if !ValidFileId(k.file) || |data| != c.cfg.pageSize then (c, false)
    else
      var c1 := CreateFile(c, k.file);
      if k.pid > NumPages(c1, k.file) then (c1, false) else (RawWrite(c1, k, data), true)
  }

  function DiskRead(c: Core, k: PageKey): Option<Bytes> {
    if !FileExists(c, k.file) || k.pid >= NumPages(c, k.file) then None
    else Some(DiskPage(c.files, c.cfg.pageSize, k))
  }

  /** `allocate_page` reserves the next page id without touching the disk. */
  function DiskAllocate(c: Core, f: string): (Core, nat) {
    var c1 := if f in c.numPages then c else CreateFile(c, f);
    var pid := NumPages(c1, f);
    (c1.(numPages := c1.numPages[f := pid + 1]), pid)
  }

  // ---------------------------------------------------------------- log buffer

  /** Durable states while `recs` are appended to wal.log one at a time. */
  function AppendStates(wal: seq<Rec>, files: Files, master: int, recs: seq<Rec>): seq<Durable> {
    seq(|recs|, i requires 0 <= i < |recs| => Durable(wal + recs[..i + 1], files, master))
  }

  function FlushLog(c: Core): (r: Core)
    ensures r.cfg == c.cfg
  {
    if c.logBuf == [] then c
    else c.(wal := c.wal + c.logBuf,
            hist := c.hist + AppendStates(c.wal, c.files, c.master, c.logBuf),
            flushedLsn := Last(c.logBuf).lsn,
            logBuf := [])
  }

  function FlushLogUpTo(c: Core, lsn: int): (r: Core)
    ensures r.cfg == c.cfg
  {
    if lsn <= c.flushedLsn then c else FlushLog(c)
  }

  function MakeRec(c: Core, lsn: nat, xid: int, body: Body): Rec {
    Rec(lsn, if xid >= 0 && xid in c.tx then c.tx[xid].lastLsn else NO_LSN, xid, body)
  }

  /** A record enters the log buffer and becomes its transaction's latest. */
  function Buffered(c: Core, lsn: nat, xid: int, body: Body): (r: Core)
    ensures r.cfg == c.cfg
  {
    c.(logBuf := c.logBuf + [MakeRec(c, lsn, xid, body)],
       tx := if xid >= 0 && xid in c.tx then c.tx[xid := c.tx[xid].(lastLsn := lsn)] else c.tx)
  }

  function FlushIfFull(c: Core): (r: Core)
    ensures r.cfg == c.cfg
  {
    if |c.logBuf| >= c.cfg.logBufferSize then FlushLog(c) else c
  }

  function EmitWithLsn(c: Core, lsn: nat, xid: int, body: Body): (r: Core)
    ensures r.cfg == c.cfg
  {
    FlushIfFull(Buffered(c, lsn, xid, body))
  }

  function Emit(c: Core, xid: int, body: Body): (r: Core)
    ensures r.cfg == c.cfg
  {
    EmitWithLsn(c.(nextLsn := c.nextLsn + 1), c.nextLsn, xid, body)
  }

  // ---------------------------------------------------------------- checkpoints

  /** Opening master.rec empties it, which reads as no master record, before the LSN is written. */
  function WriteMaster(c: Core, lsn: int): Core {
    Mark(Mark(c.(master := NO_LSN)).(master := lsn))
  }

  function Checkpoint(c: Core): (r: Core)
    ensures r.cfg == c.cfg
  {
    var c1 := Emit(c, SYS_XID, BeginCkpt);
    var c2 := Emit(c1, SYS_XID, EndCkpt(c1.tx, c1.dpt));
    WriteMaster(FlushLog(c2), c.nextLsn)
  }

  function MaybeCheckpoint(c: Core): (r: Core)
    ensures r.cfg == c.cfg
  {
    var c1 := c.(ops := c.ops + 1);
    if c1.ops >= c1.cfg.checkpointInterval then Checkpoint(c1).(ops := 0) else c1
  }

  // ---------------------------------------------------------------- transactions

  function NewTx(c: Core): Core {
    c.(nextXid := c.nextXid + 1, tx := c.tx[c.nextXid as int := TxEntry(Active, NO_LSN)])
  }

  function BeginTx(c: Core): Core {
    MaybeCheckpoint(NewTx(c))
  }

  function SetCommitted(c: Core, xid: int): Core {
    if xid in c.tx then c.(tx := c.tx[xid := c.tx[xid].(status := Committed)]) else c
  }

  function CommitTx(c: Core, xid: int): Core {
    var c1 := FlushLog(Emit(c, xid, Commit));
    var c2 := FlushLog(Emit(SetCommitted(c1, xid), xid, End));
    c2.(tx := c2.tx - {xid})
  }

  // ---------------------------------------------------------------- update logging

  function Fit(b: Bytes, n: nat): (r: Bytes)
    ensures |r| == n && forall i :: 0 <= i < n ==> r[i] == if i < |b| then b[i] else 0
  {
    if |b| >= n then b[..n] else b + Zeros(n - |b|)
  }

  function BeforeImage(before: Option<Bytes>, n: nat): (r: Bytes)
    ensures |r| == n
  {
    match before case None => Zeros(n) case Some(b) => Fit(b, n)
  }

  function AddDirty(c: Core, k: PageKey, lsn: nat): (r: Core)
    ensures r.cfg == c.cfg
  {
    if k in c.dpt then c else c.(dpt := c.dpt[k := lsn])
  }

  /** `log_page_update`: the new state and the stamped page. */
  function LogPageUpdate(c: Core, xid: Option<int>, k: PageKey, before: Option<Bytes>, after: Bytes): (r: (Core, Bytes))
    requires |after| >= HEADER_SIZE
    ensures r.0.cfg == c.cfg && |r.1| == |after|
  {
    if xid.None? then (c, after)
    else
      var lsn := c.nextLsn;
      var c1 := c.(nextLsn := lsn + 1);
      var stamped := Stamp(after, lsn);
      var full := BeforeImage(before, |stamped|);
      match DiffRange(full, stamped)
      case None => (c1, stamped)
      case Some((lo, hi)) =>
        DiffWindow(full, stamped);
        var c2 := EmitWithLsn(c1, lsn, xid.value, Update(k, lo, full[lo..hi], stamped[lo..hi]));
        (MaybeCheckpoint(AddDirty(c2, k, lsn)), stamped)
  }

  function PageFlushed(c: Core, k: PageKey): Core {
    c.(dpt := c.dpt - {k})
  }
}
