/** Redo's one failing case: the first record of the log has LSN 0, and a page that has it cannot
    be told from a page of zeros. Exactly when such a crash state is repaired all the same. */
module LostUpdate {
  import opened Pages
  import opened Log
  import opened Engine
  import opened CoreInvariant
  import opened PoolInvariant
  import opened Analysis
  import opened Redo
  import opened Undo

  // ---------------------------------------------------------------- replay from another base

  predicate Covers(u: Rec, b: nat) {
    u.body.Update? && u.body.off <= b < u.body.off + |u.body.after|
  }

  /** Some update of the history rewrites byte b. */
  predicate Rewritten(us: seq<Rec>, b: nat) {
    exists i :: 0 <= i < |us| && Covers(us[i], b)
  }

  /** Replays from two bases agree on a byte exactly when the bases do or an update rewrites it. */
  lemma {:induction false} ReplayBases(us: seq<Rec>, p: Bytes, q: Bytes, b: nat)
    requires |p| == |q| && b < |p|
    ensures Replay(us, p)[b] == Replay(us, q)[b] <==> p[b] == q[b] || Rewritten(us, b)
  {
    if us != [] {
      ReplayBases(Front(us), p, q, b);
      if Covers(Last(us), b) {
        assert Covers(us[|us| - 1], b);
      } else {
        forall i | 0 <= i < |us| - 1 && Covers(Front(us)[i], b) ensures Rewritten(us, b) {
          assert Covers(us[i], b);
        }
        forall i | 0 <= i < |us| && Covers(us[i], b) ensures Rewritten(Front(us), b) {
          assert Covers(Front(us)[i], b);
        }
      }
    }
  }

  lemma {:induction false} ReplayRest(us: seq<Rec>, p: Bytes)
    requires us != []
    ensures Replay(us, p) == Replay(us[1..], Patch(p, us[0]))
  {
    if |us| == 1 {
      assert Front(us) == [] && us[1..] == [];
    } else {
      ReplayRest(Front(us), p);
      assert Front(us)[1..] == Front(us[1..]);
    }
  }

  /** Losing update 0 shows exactly in the bytes it changed that no later update rewrites. */
  predicate LossShows(us: seq<Rec>, b: nat) {
    us != [] && Changes(us[0], b) && !Rewritten(us[1..], b)
  }

  lemma LossAtByte(us: seq<Rec>, b: nat, ps: nat)
    requires ps >= HEADER_SIZE && us != [] && Logged([], us[0], ps) && b < ps
    ensures Replay(us[1..], Zeros(ps))[b] == Replay(us, Zeros(ps))[b] <==> !LossShows(us, b)
  {
    var z := Zeros(ps);
    ReplayRest(us, z);
    ReplayBases(us[1..], z, Patch(z, us[0]), b);
    LoggedByte([], us[0], b, ps);
    assert [] + [us[0]] == [us[0]] && Front([us[0]]) == [];
    assert Replay([us[0]], z) == Patch(z, us[0]);
    if Changes(us[0], b) {
      assert us[0].body.before[b - us[0].body.off] == 0;
    }
  }

  // ---------------------------------------------------------------- two engines side by side

  /** The engines differ in the content of page k only. */
  ghost predicate Twin(c: Core, t: Core, k: PageKey) {
    && t == c.(files := t.files, hist := t.hist)
    && t.files.Keys == c.files.Keys
    && (forall f :: f in c.files ==> |t.files[f]| == |c.files[f]|)
    && (forall j :: j != k ==> DiskPage(t.files, c.cfg.pageSize, j) == DiskPage(c.files, c.cfg.pageSize, j))
  }

  lemma TwinCreate(c: Core, t: Core, k: PageKey, f: string)
    requires Twin(c, t, k)
    ensures Twin(CreateFile(c, f), CreateFile(t, f), k)
  {
    hide DiskPage;
    forall j ensures DiskPage(CreateFile(c, f).files, c.cfg.pageSize, j) == DiskPage(c.files, c.cfg.pageSize, j)
             ensures DiskPage(CreateFile(t, f).files, c.cfg.pageSize, j) == DiskPage(t.files, c.cfg.pageSize, j)
    {
      NoNewContent(c, f, j);
      NoNewContent(t, f, j);
    }
  }

  lemma NoNewContent(c: Core, f: string, j: PageKey)
    ensures DiskPage(CreateFile(c, f).files, c.cfg.pageSize, j) == DiskPage(c.files, c.cfg.pageSize, j)
  {
  }

  lemma TwinWrite(c: Core, t: Core, k: PageKey, j: PageKey, data: Bytes, data': Bytes)
    requires Twin(c, t, k) && |data| == |data'| && (j != k ==> data == data') && j.file in c.files
    ensures Twin(RawWrite(c, j, data), RawWrite(t, j, data'), k)
  {
    hide DiskPage;
    var c1, t1, ps := RawWrite(c, j, data), RawWrite(t, j, data'), c.cfg.pageSize;
    forall i | i != k ensures DiskPage(t1.files, ps, i) == DiskPage(c1.files, ps, i) {
      PutPageEffect(c.files, ps, j, data, i);
      PutPageEffect(t.files, ps, j, data', i);
    }
  }

  lemma TwinDiskWrite(c: Core, t: Core, k: PageKey, j: PageKey, data: Bytes, data': Bytes)
    requires Twin(c, t, k) && |data| == |data'| && (j != k ==> data == data')
    ensures Twin(DiskWrite(c, j, data).0, DiskWrite(t, j, data').0, k)
  {
    hide Twin, RawWrite, CreateFile;
    TwinFacts(c, t, k);
    TwinCreate(c, t, k, j.file);
    var c1, t1 := CreateFile(c, j.file), CreateFile(t, j.file);
    TwinFacts(c1, t1, k);
    if ValidFileId(j.file) && |data| == c.cfg.pageSize && j.pid <= NumPages(c1, j.file) {
      CreatedFile(c, j.file);
      TwinWrite(c1, t1, k, j, data, data');
    }
  }

  lemma CreatedFile(c: Core, f: string)
    ensures f in CreateFile(c, f).files
  {
  }

  lemma TwinFacts(c: Core, t: Core, k: PageKey)
    requires Twin(c, t, k)
    ensures t.cfg == c.cfg && t.wal == c.wal && t.dpt == c.dpt && t.numPages == c.numPages && t.files.Keys == c.files.Keys
    ensures forall f :: NumPages(t, f) == NumPages(c, f)
  {
  }

  lemma {:induction false} TwinZeros(c: Core, t: Core, k: PageKey, f: string, n: nat)
    requires Twin(c, t, k)
    ensures Twin(WriteZeros(c, f, n), WriteZeros(t, f, n), k)
    decreases n
  {
    hide Twin, DiskWrite;
    if n != 0 {
      TwinFacts(c, t, k);
      var j := PageKey(f, NumPages(c, f));
      TwinDiskWrite(c, t, k, j, Zeros(c.cfg.pageSize), Zeros(c.cfg.pageSize));
      TwinZeros(DiskWrite(c, j, Zeros(c.cfg.pageSize)).0, DiskWrite(t, j, Zeros(c.cfg.pageSize)).0, k, f, n - 1);
    }
  }

  lemma TwinEnsure(c: Core, t: Core, k: PageKey, j: PageKey)
    requires Twin(c, t, k)
    ensures Twin(EnsurePage(c, j), EnsurePage(t, j), k)
  {
    hide Twin, WriteZeros, CreateFile;
    TwinFacts(c, t, k);
    TwinCreate(c, t, k, j.file);
    var c1 := if FileExists(c, j.file) then c else CreateFile(c, j.file);
    var t1 := if FileExists(c, j.file) then t else CreateFile(t, j.file);
    TwinFacts(c1, t1, k);
    TwinZeros(c1, t1, k, j.file, MissingPages(c1, j));
  }

  lemma TwinApply(c: Core, t: Core, k: PageKey, r: Rec)
    requires Twin(c, t, k) && r.body.Update? && r.body.key != k
    ensures Twin(ApplyRec(c, r), ApplyRec(t, r), k)
  {
    hide DiskWrite, Patch, DiskPage;
    if DiskRead(c, r.body.key).Some? {
      var data := DiskRead(c, r.body.key).value;
      assert DiskRead(t, r.body.key) == Some(data);
      TwinDiskWrite(c, t, k, r.body.key, Patch(data, r), Patch(data, r));
    }
  }

  /** A record of another page does the same in both. */
  lemma TwinRedo(c: Core, t: Core, k: PageKey, r: Rec)
    requires Twin(c, t, k) && (r.body.Update? ==> r.body.key != k)
    ensures Twin(RedoRec(c, r), RedoRec(t, r), k)
  {
    hide ApplyRec, EnsurePage, DiskPage;
    if r.body.Update? {
      TwinApply(c, t, k, r);
      TwinEnsure(c, t, k, r.body.key);
      TwinApply(EnsurePage(c, r.body.key), EnsurePage(t, r.body.key), k, r);
    }
  }

  // ---------------------------------------------------------------- redo with the first update lost

  /** Page k of the two engines after j of its updates: with all of them in `t`, without the first in `c`. */
  ghost predicate Behind(c: Core, t: Core, k: PageKey, j: nat) {
    var us := Upd(c.wal, k);
    && 1 <= j <= |us|
    && Twin(c, t, k)
    && FileExists(c, k.file) && k.pid < NumPages(c, k.file) && OnDisk(c.files, k)
    && DiskPage(c.files, c.cfg.pageSize, k) == Replay(us[1..j], Zeros(c.cfg.pageSize))
    && DiskPage(t.files, c.cfg.pageSize, k) == Replay(us[..j], Zeros(c.cfg.pageSize))
  }

  /** Replays from bases with the same LSN bytes have the same LSN. */
  lemma SameLsn(us: seq<Rec>, p: Bytes, q: Bytes)
    requires |p| == |q| >= HEADER_SIZE && p[LSN_OFFSET..LSN_OFFSET + LSN_SIZE] == q[LSN_OFFSET..LSN_OFFSET + LSN_SIZE]
    ensures PageLsn(Replay(us, p)) == PageLsn(Replay(us, q))
  {
    hide Replay, Rewritten, FromLe;
    var a, b := Replay(us, p), Replay(us, q);
    forall i | LSN_OFFSET <= i < LSN_OFFSET + LSN_SIZE ensures a[i] == b[i] {
      assert p[i] == p[LSN_OFFSET..LSN_OFFSET + LSN_SIZE][i - LSN_OFFSET];
      assert q[i] == q[LSN_OFFSET..LSN_OFFSET + LSN_SIZE][i - LSN_OFFSET];
      ReplayBases(us, p, q, i);
    }
    assert a[LSN_OFFSET..LSN_OFFSET + LSN_SIZE] == b[LSN_OFFSET..LSN_OFFSET + LSN_SIZE];
  }

  /** Both pages carry the same pageLSN: update 0 stamped zero. */
  lemma BehindLsn(log: seq<Rec>, k: PageKey, j: nat, ps: nat)
    requires ps >= HEADER_SIZE && LogInv(log, ps) && 1 <= j <= |Upd(log, k)| && Upd(log, k)[0].lsn == 0
    ensures PageLsn(Replay(Upd(log, k)[1..j], Zeros(ps))) == Upd(log, k)[j - 1].lsn
  {
    hide LogInv, FromLe;
    var us, z := Upd(log, k), Zeros(ps);
    ReplayLsn(log, k, j, ps);
    ReplayLsn(log, k, 1, ps);
    var p := Replay(us[..1], z);
    assert us[..1] == [us[0]] && Front([us[0]]) == [];
    assert p == Patch(z, us[0]);
    LsnBytesZero(p[LSN_OFFSET..LSN_OFFSET + LSN_SIZE]);
    assert us[..j][1..] == us[1..j] && us[..j][0] == us[0];
    ReplayRest(us[..j], z);
    assert p[LSN_OFFSET..LSN_OFFSET + LSN_SIZE] == z[LSN_OFFSET..LSN_OFFSET + LSN_SIZE];
    SameLsn(us[1..j], p, z);
  }

  lemma {:induction false} LsnBytesZero(bs: Bytes)
    requires FromLe(bs) == 0
    ensures forall i :: 0 <= i < |bs| ==> bs[i] == 0
  {
    if bs != [] {
      LsnBytesZero(bs[1..]);
      assert forall i :: 1 <= i < |bs| ==> bs[i] == bs[1..][i - 1];
    }
  }

  lemma RedoApplies(c: Core, k: PageKey, r: Rec)
    requires r.body.Update? && r.body.key == k && k in c.dpt && c.dpt[k] <= r.lsn
    requires FileExists(c, k.file) && k.pid < NumPages(c, k.file)
    requires var p := DiskPage(c.files, c.cfg.pageSize, k); |p| >= HEADER_SIZE && PageLsn(p) < r.lsn
    ensures RedoRec(c, r) == DiskWrite(c, k, Patch(DiskPage(c.files, c.cfg.pageSize, k), r)).0
  {
    hide DiskPage, DiskWrite, PageLsn, Patch;
  }

  /** The next update of k is applied in both. */
  lemma BehindStep(c: Core, t: Core, k: PageKey, j: nat)
    requires c.cfg.pageSize >= HEADER_SIZE && LogInv(c.wal, c.cfg.pageSize) && Behind(c, t, k, j)
    requires j < |Upd(c.wal, k)| && Upd(c.wal, k)[0].lsn == 0 && DptCovers(c.dpt, c.wal, k, 0)
    ensures var r := Upd(c.wal, k)[j]; Behind(RedoRec(c, r), RedoRec(t, r), k, j + 1)
  {
    hide LogInv, RedoRec, PageLsn, Replay, DiskWrite;
    var us, ps := Upd(c.wal, k), c.cfg.pageSize;
    var z, r := Zeros(ps), us[j];
    BehindLsn(c.wal, k, j, ps);
    ReplayLsn(c.wal, k, j, ps);
    UpdLsnsIncrease(c.wal, k, j - 1, j, ps);
    UpdLsnsIncrease(c.wal, k, 0, j, ps);
    assert r.body.Update? && r.body.key == k by {
      var _ := UpdIndex(c.wal, k, j);
    }
    ReplaySnoc(us[1..j], r, z);
    ReplaySnoc(us[..j], r, z);
    assert us[1..j + 1] == us[1..j] + [r] && us[..j + 1] == us[..j] + [r];
    BehindWrite(c, t, k, j, Patch(Replay(us[1..j], z), r), Patch(Replay(us[..j], z), r));
    RedoApplies(c, k, r);
    RedoApplies(t, k, r);
  }

  lemma ReplaySnoc(us: seq<Rec>, r: Rec, p: Bytes)
    ensures Replay(us + [r], p) == Patch(Replay(us, p), r)
  {
    Snoc(us, r);
  }

  lemma BehindWrite(c: Core, t: Core, k: PageKey, j: nat, p: Bytes, q: Bytes)
    requires Behind(c, t, k, j) && |p| == |q| == c.cfg.pageSize && j < |Upd(c.wal, k)|
    requires p == Replay(Upd(c.wal, k)[1..j + 1], Zeros(c.cfg.pageSize))
    requires q == Replay(Upd(c.wal, k)[..j + 1], Zeros(c.cfg.pageSize))
    ensures Behind(DiskWrite(c, k, p).0, DiskWrite(t, k, q).0, k, j + 1)
  {
    hide Replay;
    TwinDiskWrite(c, t, k, k, p, q);
    PutPageEffect(c.files, c.cfg.pageSize, k, p, k);
    PutPageEffect(t.files, c.cfg.pageSize, k, q, k);
  }

  // ---------------------------------------------------------------- other pages leave page k alone

  /** What holds of page k before still holds after. */
  ghost predicate Keeps(c: Core, c': Core, k: PageKey) {
    && c' == c.(files := c'.files, numPages := c'.numPages, hist := c'.hist)
    && (OnDisk(c.files, k) ==> OnDisk(c'.files, k))
    && NumPages(c', k.file) >= NumPages(c, k.file)
    && (k.pid < NumPages(c, k.file) && OnDisk(c.files, k) ==>
          DiskPage(c'.files, c.cfg.pageSize, k) == DiskPage(c.files, c.cfg.pageSize, k))
  }

  lemma KeepsThen(c: Core, c1: Core, c2: Core, k: PageKey)
    requires Keeps(c, c1, k) && Keeps(c1, c2, k)
    ensures Keeps(c, c2, k)
  {
    hide DiskPage, OnDisk;
  }

  lemma KeepsCreate(c: Core, k: PageKey, f: string)
    requires c.files.Keys == c.numPages.Keys
    ensures Keeps(c, CreateFile(c, f), k) && CreateFile(c, f).files.Keys == CreateFile(c, f).numPages.Keys
  {
  }

  lemma KeepsWrite(c: Core, k: PageKey, j: PageKey, data: Bytes)
    requires c.files.Keys == c.numPages.Keys && (j != k || k.pid >= NumPages(c, k.file))
    ensures Keeps(c, DiskWrite(c, j, data).0, k)
    ensures DiskWrite(c, j, data).0.files.Keys == DiskWrite(c, j, data).0.numPages.Keys
  {
    hide DiskPage;
    KeepsCreate(c, k, j.file);
    var c1 := CreateFile(c, j.file);
    CreatedFile(c, j.file);
    PutPageEffect(c1.files, c.cfg.pageSize, j, data, k);
    KeepsRaw(c1, k, j, data);
    KeepsThen(c, c1, RawWrite(c1, j, data), k);
  }

  lemma KeepsRaw(c: Core, k: PageKey, j: PageKey, data: Bytes)
    requires j.file in c.files && c.files.Keys == c.numPages.Keys && (j != k || k.pid >= NumPages(c, k.file))
    ensures Keeps(c, RawWrite(c, j, data), k) && RawWrite(c, j, data).files.Keys == RawWrite(c, j, data).numPages.Keys
  {
    PutPageEffect(c.files, c.cfg.pageSize, j, data, k);
  }

  lemma {:induction false} KeepsZeros(c: Core, k: PageKey, f: string, n: nat)
    requires c.files.Keys == c.numPages.Keys && k.pid < NumPages(c, k.file)
    ensures Keeps(c, WriteZeros(c, f, n), k) && WriteZeros(c, f, n).files.Keys == WriteZeros(c, f, n).numPages.Keys
    decreases n
  {
    hide DiskWrite;
    if n != 0 {
      var j := PageKey(f, NumPages(c, f));
      KeepsWrite(c, k, j, Zeros(c.cfg.pageSize));
      var c1 := DiskWrite(c, j, Zeros(c.cfg.pageSize)).0;
      KeepsZeros(c1, k, f, n - 1);
      KeepsThen(c, c1, WriteZeros(c, f, n), k);
    }
  }

  lemma KeepsRedo(c: Core, k: PageKey, r: Rec)
    requires c.files.Keys == c.numPages.Keys && k.pid < NumPages(c, k.file) && (r.body.Update? ==> r.body.key != k)
    ensures Keeps(c, RedoRec(c, r), k) && RedoRec(c, r).files.Keys == RedoRec(c, r).numPages.Keys
  {
    hide DiskPage, WriteZeros, DiskWrite, CreateFile, NumPages, OnDisk;
    if r.body.Update? {
      var j := r.body.key;
      KeepsCreate(c, k, j.file);
      var c1 := if FileExists(c, j.file) then c else CreateFile(c, j.file);
      KeepsZeros(c1, k, j.file, MissingPages(c1, j));
      KeepsThen(c, c1, EnsurePage(c, j), k);
      KeepsApply(c, k, r);
      KeepsApply(EnsurePage(c, j), k, r);
      KeepsThen(c, EnsurePage(c, j), ApplyRec(EnsurePage(c, j), r), k);
    }
  }

  lemma KeepsApply(c: Core, k: PageKey, r: Rec)
    requires c.files.Keys == c.numPages.Keys && r.body.Update? && r.body.key != k
    ensures Keeps(c, ApplyRec(c, r), k) && ApplyRec(c, r).files.Keys == ApplyRec(c, r).numPages.Keys
  {
    hide DiskWrite, DiskPage, NumPages, OnDisk;
    if DiskRead(c, r.body.key).Some? {
      KeepsWrite(c, k, r.body.key, Patch(DiskRead(c, r.body.key).value, r));
    }
  }

  // ---------------------------------------------------------------- the whole of redo

  /** From record 1 on, the two engines stay one lost update apart. */
  lemma {:induction false} BehindPrefix(c: Core, t: Core, k: PageKey, m: nat)
    requires c.cfg.pageSize >= HEADER_SIZE && LogInv(c.wal, c.cfg.pageSize) && 1 <= m <= |c.wal|
    requires c.wal[0].body.Update? && c.wal[0].body.key == k && c.wal[0].lsn == 0
    requires RedoRec(c, c.wal[0]) == c && RedoRec(t, c.wal[0]) == t && Behind(c, t, k, 1)
    requires DptCovers(c.dpt, c.wal, k, 0) && c.files.Keys == c.numPages.Keys
    ensures var c', t' := RedoAll(c, c.wal[..m]), RedoAll(t, c.wal[..m]);
            && Behind(c', t', k, |Upd(c.wal[..m], k)|) && c'.files.Keys == c'.numPages.Keys
            && c' == c.(files := c'.files, numPages := c'.numPages, hist := c'.hist)
  {
    hide LogInv, RedoRec, Behind;
    if m == 1 {
      assert c.wal[..1] == [] + [c.wal[0]];
      Snoc([], c.wal[0]);
      assert |Upd(c.wal[..1], k)| == 1;
    } else {
      BehindPrefix(c, t, k, m - 1);
      var r := c.wal[m - 1];
      assert c.wal[..m] == c.wal[..m - 1] + [r];
      Snoc(c.wal[..m - 1], r);
      var c1, t1 := RedoAll(c, c.wal[..m - 1]), RedoAll(t, c.wal[..m - 1]);
      var j := |Upd(c.wal[..m - 1], k)|;
      if r.body.Update? && r.body.key == k {
        UpdAt(c.wal, m - 1);
        FirstIsZero(c.wal, k);
        BehindStep(c1, t1, k, j);
        RedoKeepsRest(c1, r);
      } else {
        BehindOther(c1, t1, k, j, r);
      }
    }
  }

  lemma FirstIsZero(log: seq<Rec>, k: PageKey)
    requires log != [] && log[0].body.Update? && log[0].body.key == k
    ensures Upd(log, k) != [] && Upd(log, k)[0] == log[0]
  {
    UpdAt(log, 0);
    assert log[..0] == [];
  }

  lemma RedoKeepsRest(c: Core, r: Rec)
    requires c.files.Keys == c.numPages.Keys
    ensures var c' := RedoRec(c, r);
            && c'.files.Keys == c'.numPages.Keys
            && c' == c.(files := c'.files, numPages := c'.numPages, hist := c'.hist)
  {
    hide DiskPage, WriteZeros, DiskWrite, CreateFile, NumPages, OnDisk;
    if r.body.Update? {
      var j := r.body.key;
      var k := PageKey("", 0);
      KeepsCreate(c, k, j.file);
      var c1 := if FileExists(c, j.file) then c else CreateFile(c, j.file);
      ZerosKeepRest(c1, j.file, MissingPages(c1, j));
      ApplyKeepsRest(c, r);
      ApplyKeepsRest(EnsurePage(c, j), r);
    }
  }

  lemma DiskWriteKeys(c: Core, j: PageKey, data: Bytes)
    requires c.files.Keys == c.numPages.Keys
    ensures DiskWrite(c, j, data).0.files.Keys == DiskWrite(c, j, data).0.numPages.Keys
  {
    KeepsWrite(c, PageKey(j.file, j.pid + 1), j, data);
  }

  lemma {:induction false} ZerosKeepRest(c: Core, f: string, n: nat)
    requires c.files.Keys == c.numPages.Keys
    ensures var c' := WriteZeros(c, f, n);
            && c'.files.Keys == c'.numPages.Keys
            && c' == c.(files := c'.files, numPages := c'.numPages, hist := c'.hist)
    decreases n
  {
    hide DiskWrite;
    if n != 0 {
      DiskWriteKeys(c, PageKey(f, NumPages(c, f)), Zeros(c.cfg.pageSize));
      ZerosKeepRest(DiskWrite(c, PageKey(f, NumPages(c, f)), Zeros(c.cfg.pageSize)).0, f, n - 1);
    }
  }

  lemma ApplyKeepsRest(c: Core, r: Rec)
    requires c.files.Keys == c.numPages.Keys && r.body.Update?
    ensures var c' := ApplyRec(c, r);
            && c'.files.Keys == c'.numPages.Keys
            && c' == c.(files := c'.files, numPages := c'.numPages, hist := c'.hist)
  {
    hide DiskWrite, DiskPage;
    if DiskRead(c, r.body.key).Some? {
      DiskWriteKeys(c, r.body.key, Patch(DiskRead(c, r.body.key).value, r));
    }
  }

  lemma BehindOther(c: Core, t: Core, k: PageKey, j: nat, r: Rec)
    requires Behind(c, t, k, j) && c.files.Keys == c.numPages.Keys && (r.body.Update? ==> r.body.key != k)
    ensures Behind(RedoRec(c, r), RedoRec(t, r), k, j)
    ensures var c' := RedoRec(c, r);
            && c'.files.Keys == c'.numPages.Keys
            && c' == c.(files := c'.files, numPages := c'.numPages, hist := c'.hist)
  {
    hide RedoRec, DiskPage, Replay;
    TwinRedo(c, t, k, r);
    KeepsRedo(c, k, r);
    assert OnDisk(t.files, k);
    KeepsRedo(t, k, r);
  }

  // ---------------------------------------------------------------- the exact condition

  /** The same crash state with update 0 in its page. */
  function Repaired(d: Durable, ps: nat): Durable
    requires d.wal != [] && d.wal[0].body.Update? && d.wal[0].body.key.file in d.files
  {
    d.(files := PutPage(d.files, ps, d.wal[0].body.key, Patch(Zeros(ps), d.wal[0])))
  }

  /** The first update alone, and the page it makes. */
  lemma FirstUpdate(log: seq<Rec>, k: PageKey, ps: nat)
    requires ps >= HEADER_SIZE && LogInv(log, ps) && log != [] && log[0].body.Update? && log[0].body.key == k
    ensures Upd(log, k) != [] && Upd(log, k)[0] == log[0] && Logged([], log[0], ps)
    ensures Replay(Upd(log, k)[..1], Zeros(ps)) == Patch(Zeros(ps), log[0]) != Zeros(ps)
    ensures PageLsn(Patch(Zeros(ps), log[0])) == log[0].lsn
  {
    FirstIsZero(log, k);
    HistoryLogged(log, k, 0, ps);
    var us := Upd(log, k);
    assert us[..0] == [] && us[..1] == [] + [us[0]];
    ReplaySnoc([], us[0], Zeros(ps));
  }

  lemma RepairedOk(d: Durable, ps: nat)
    requires CrashInv(d, ps) && LostZero(d.wal, d.files, ps)
    ensures CrashInv(Repaired(d, ps), ps) && !LostZero(d.wal, Repaired(d, ps).files, ps)
    ensures CkptOk(d.wal, d.wal[0].body.key, 0)
  {
    hide LogInv, Upd, CkptOk, DptCovers, Analyse, Patch, Replay, PutPage, DiskPage, FilesOk;
    var k := d.wal[0].body.key;
    var files := Repaired(d, ps).files;
    var p := Patch(Zeros(ps), d.wal[0]);
    FirstUpdate(d.wal, k, ps);
    NothingHeld(d, k, ps);
    forall j ensures DiskPage(files, ps, j) == if j == k then p else DiskPage(d.files, ps, j) {
      PutPageEffect(d.files, ps, k, p, j);
    }
    RepairedSizes(d, ps);
    forall j ensures PageOk(d.wal, files, ps, j) {
      if j == k {
        assert HoldsFirst(d.wal, files, ps, k, 1);
      } else {
        assert PageOk(d.wal, d.files, ps, j);
        var i: nat :| HoldsFirst(d.wal, d.files, ps, j, i);
        assert HoldsFirst(d.wal, files, ps, j, i);
      }
    }
  }

  lemma RepairedSizes(d: Durable, ps: nat)
    requires FilesOk(d.files, ps) && d.wal != [] && d.wal[0].body.Update? && OnDisk(d.files, d.wal[0].body.key)
    ensures FilesOk(Repaired(d, ps).files, ps) && OnDisk(Repaired(d, ps).files, d.wal[0].body.key)
  {
    hide Patch;
  }

  /** A page of zeros holds none of its updates. */
  lemma NothingHeld(d: Durable, k: PageKey, ps: nat)
    requires CrashInv(d, ps) && DiskPage(d.files, ps, k) == Zeros(ps) && Upd(d.wal, k) != []
    ensures CkptOk(d.wal, k, 0) && CkptOk(d.wal, k, 1)
  {
    hide LogInv, Upd, CkptOk, DptCovers, Analyse, Replay, FilesOk, DiskPage;
    assert PageOk(d.wal, d.files, ps, k);
    var n: nat :| HoldsFirst(d.wal, d.files, ps, k, n);
    ReplayLsn(d.wal, k, n, ps);
    assert n == 0;
    AnalysisDpt(d.wal, d.master, k, 0, ps);
    HoldsMore(d.wal, k, 0, Analyse(d.wal, d.master).dpt, ps);
  }

  lemma RepairedPages(d: Durable, ps: nat)
    requires CrashInv(d, ps) && LostZero(d.wal, d.files, ps)
    ensures var k := d.wal[0].body.key;
            forall j :: DiskPage(Repaired(d, ps).files, ps, j)
                     == if j == k then Patch(Zeros(ps), d.wal[0]) else DiskPage(d.files, ps, j)
  {
    var k := d.wal[0].body.key;
    forall j ensures DiskPage(Repaired(d, ps).files, ps, j)
                  == if j == k then Patch(Zeros(ps), d.wal[0]) else DiskPage(d.files, ps, j) {
      PutPageEffect(d.files, ps, k, Patch(Zeros(ps), d.wal[0]), j);
    }
  }

  /** Both starts skip record 0, one wrongly. */
  lemma BothSkip(cfg: Config, hist: seq<Durable>)
    requires AllCrashOk(cfg, hist) && LostZero(Last(hist).wal, Last(hist).files, cfg.pageSize)
    ensures var d := Last(hist); var k := d.wal[0].body.key;
            var c, t := Analysed(cfg, hist), Analysed(cfg, [Repaired(d, cfg.pageSize)]);
            && Behind(c, t, k, 1) && RedoRec(c, d.wal[0]) == c && RedoRec(t, d.wal[0]) == t
            && DptCovers(c.dpt, d.wal, k, 0) && c.files.Keys == c.numPages.Keys
  {
    hide LogInv, Analyse, CkptOk, FilesOk, Upd, PutPage, DiskPage, Patch, DptCovers, PageLsn, Replay, PageOk, ApplyRec,
         EnsurePage;
    var d, ps := Last(hist), cfg.pageSize;
    var k := d.wal[0].body.key;
    assert CrashInv(d, ps);
    RepairedOk(d, ps);
    UpdateKey(d.wal, 0, ps);
    FirstUpdate(d.wal, k, ps);
    AnalysisDpt(d.wal, d.master, k, 0, ps);
    ZeroPageLsn(ps);
    RepairedPages(d, ps);
    RepairedCounts(d, ps);
    assert Upd(d.wal, k)[1..1] == [];
    ReplayNothing(Zeros(ps));
  }

  /** The repair keeps the number of pages of every file. */
  lemma RepairedCounts(d: Durable, ps: nat)
    requires d.wal != [] && d.wal[0].body.Update? && OnDisk(d.files, d.wal[0].body.key)
    ensures var f := Repaired(d, ps).files;
            && f.Keys == d.files.Keys && OnDisk(f, d.wal[0].body.key)
            && (forall g :: g in d.files ==> |f[g]| == |d.files[g]|)
            && (map g | g in f :: |f[g]|) == (map g | g in d.files :: |d.files[g]|)
  {
    hide Patch;
  }

  /** With the loss, redo still repeats history everywhere else, and on that page all but update 0. */
  lemma AllButFirst(cfg: Config, hist: seq<Durable>, j: PageKey)
    requires AllCrashOk(cfg, hist) && LostZero(Last(hist).wal, Last(hist).files, cfg.pageSize)
    ensures var wal := Last(hist).wal; var us := Upd(wal, j);
            var page := DiskPage(RedoAll(Analysed(cfg, hist), wal).files, cfg.pageSize, j);
            if j == wal[0].body.key then us != [] && page == Replay(us[1..], Zeros(cfg.pageSize))
            else page == Replay(us, Zeros(cfg.pageSize))
  {
    hide LogInv, Analyse, CkptOk, FilesOk, RedoRec, RedoAll, CrashInv, Replay, RedoInv, OnlyPages;
    var d, ps := Last(hist), cfg.pageSize;
    var k := d.wal[0].body.key;
    assert CrashInv(d, ps);
    WalOf(d, ps);
    RepairedOk(d, ps);
    BothSkip(cfg, hist);
    var c, t := Analysed(cfg, hist), Analysed(cfg, [Repaired(d, ps)]);
    assert d.wal[..|d.wal|] == d.wal;
    BehindPrefix(c, t, k, |d.wal|);
    RedoRepeatsHistory(cfg, [Repaired(d, ps)]);
    var us := Upd(d.wal, k);
    assert us[1..|us|] == us[1..];
  }

  lemma WalOf(d: Durable, ps: nat)
    requires CrashInv(d, ps)
    ensures LogInv(d.wal, ps)
  {
  }

  /** Redo repeats history exactly when no byte shows the loss of a zero-LSN update. */
  lemma RedoExactly(cfg: Config, hist: seq<Durable>)
    requires AllCrashOk(cfg, hist)
    ensures var d := Last(hist);
            (forall j :: DiskPage(RedoAll(Analysed(cfg, hist), d.wal).files, cfg.pageSize, j)
                      == Replay(Upd(d.wal, j), Zeros(cfg.pageSize)))
            <==> (LostZero(d.wal, d.files, cfg.pageSize) ==>
                    forall b :: 0 <= b < cfg.pageSize ==> !LossShows(Upd(d.wal, d.wal[0].body.key), b))
  {
    hide LogInv, Analyse, FilesOk, RedoAll, CrashInv, Replay, LossShows, DiskPage, RedoInv, OnlyPages;
    var d, ps := Last(hist), cfg.pageSize;
    if !LostZero(d.wal, d.files, ps) {
      RedoRepeatsHistory(cfg, hist);
    } else {
      var k := d.wal[0].body.key;
      var files := RedoAll(Analysed(cfg, hist), d.wal).files;
      forall j ensures j != k ==> DiskPage(files, ps, j) == Replay(Upd(d.wal, j), Zeros(ps)) {
        AllButFirst(cfg, hist, j);
      }
      AllButFirst(cfg, hist, k);
      assert CrashInv(d, ps);
      WalOf(d, ps);
      FirstUpdate(d.wal, k, ps);
      var us := Upd(d.wal, k);
      forall b | 0 <= b < ps
        ensures Replay(us[1..], Zeros(ps))[b] == Replay(us, Zeros(ps))[b] <==> !LossShows(us, b)
      {
        LossAtByte(us, b, ps);
      }
    }
  }

  /** A crash state that redo does not repair: the update is durable, its page a hole of zeros left
      by writing a later page of the file first. */
  lemma LostUpdateExample(cfg: Config)
    requires cfg.pageSize >= HEADER_SIZE
    ensures var k := PageKey("f", 0);
            var d := Durable([Rec(0, NO_LSN, 0, Update(k, 0, [0], [1]))], map["f" := [Zeros(cfg.pageSize)]], NO_LSN);
            && AllCrashOk(cfg, [d]) && LostZero(d.wal, d.files, cfg.pageSize)
            && DiskPage(RedoAll(Analysed(cfg, [d]), d.wal).files, cfg.pageSize, k) != Replay(Upd(d.wal, k), Zeros(cfg.pageSize))
  {
    hide RedoAll, Analyse, CrashInv, LogInv;
    var ps, k := cfg.pageSize, PageKey("f", 0);
    var r := Rec(0, NO_LSN, 0, Update(k, 0, [0], [1]));
    var d := Durable([r], map["f" := [Zeros(ps)]], NO_LSN);
    OneUpdate(k, r, ps);
    OneUpdateCrash(d, k, r, ps);
    AllButFirst(cfg, [d], k);
    assert [r][1..] == [];
  }

  lemma OneUpdate(k: PageKey, r: Rec, ps: nat)
    requires ps >= HEADER_SIZE && k == PageKey("f", 0) && r == Rec(0, NO_LSN, 0, Update(k, 0, [0], [1]))
    ensures LogInv([r], ps) && Upd([r], k) == [r] && Replay([r], Zeros(ps)) != Zeros(ps)
  {
    var z := Zeros(ps);
    Snoc([], r);
    assert [] + [r] == [r] && Front([r]) == [];
    assert Patch(z, r)[LSN_OFFSET..LSN_OFFSET + LSN_SIZE] == z[LSN_OFFSET..LSN_OFFSET + LSN_SIZE];
    ZeroPageLsn(ps);
    assert Replay([], z) == z && Replay([r], z) == Patch(z, r) && Patch(z, r)[0] == 1;
    assert z[0..1] == [0];
    assert Logged([], r, ps);
    assert LogInv([], ps);
  }

  lemma OneUpdateCrash(d: Durable, k: PageKey, r: Rec, ps: nat)
    requires ps >= HEADER_SIZE && LogInv([r], ps) && r.body.Update?
    requires d == Durable([r], map["f" := [Zeros(ps)]], NO_LSN)
    ensures CrashInv(d, ps)
  {
    hide LogInv, RecOk;
    forall j ensures PageOk(d.wal, d.files, ps, j) {
      assert Upd(d.wal, j)[..0] == [];
      assert HoldsFirst(d.wal, d.files, ps, j, 0);
    }
  }
}
