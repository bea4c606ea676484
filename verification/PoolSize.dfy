/** What the size and the policy of the pool can and cannot change: nothing the client sees, and,
    for one policy, only ever more hits in a larger pool. */
module PoolSize {
  import opened Pages
  import opened Log
  import opened Engine
  import opened CoreInvariant
  import opened Pool
  import opened PoolInvariant
  import opened Runs

  // ---------------------------------------------------------------- the order of the frames

  /** The frames kept when one more is needed. */
  function Evicted(policy: Policy, n: nat, order: seq<PageKey>): seq<PageKey>
    requires n >= 1
  {
    if |order| < n then order else Without(order, VictimOf(policy, order))
  }

  /** The frames, least recently used first, after page k has been read, written or allocated. */
  function Used(policy: Policy, n: nat, order: seq<PageKey>, k: PageKey): seq<PageKey>
    requires n >= 1
  {
    if k in order then Touch(order, k) else Evicted(policy, n, order) + [k]
  }

  /** How a small pool sits inside a large one: under LRU it is the most recent end of it; under
      MRU it agrees on the last page, holds a subset, and is the same pool until it fills up. */
  predicate Nested(policy: Policy, n: nat, small: seq<PageKey>, big: seq<PageKey>) {
    match policy
    case LRU => |small| <= |big| && big[|big| - |small|..] == small
    case MRU =>
      && (forall k :: k in small ==> k in big)
      && (small != [] ==> big != [] && Last(small) == Last(big))
      && (|small| < n ==> small == big)
  }

  lemma NestedSubset(policy: Policy, n: nat, small: seq<PageKey>, big: seq<PageKey>)
    requires Nested(policy, n, small, big)
    ensures forall k :: k in small ==> k in big
  {
    if policy == LRU {
      forall k | k in small ensures k in big {
        var i :| 0 <= i < |small| && small[i] == k;
        assert big[|big| - |small| + i] == k;
      }
    }
  }

  lemma {:induction false} WithoutAbsent(order: seq<PageKey>, k: PageKey)
    requires k !in order
    ensures Without(order, k) == order
  {
    if order != [] {
      WithoutAbsent(order[1..], k);
    }
  }

  lemma {:induction false} WithoutConcat(a: seq<PageKey>, b: seq<PageKey>, k: PageKey)
    ensures Without(a + b, k) == if k in a then Without(a, k) + b else a + Without(b, k)
  {
    hide Without;
    if a == [] {
      assert a + b == b && a + Without(b, k) == Without(b, k);
    } else {
      var x, rest := a[0], a[1..];
      HeadTail(a, b);
      WithoutCons(x, rest, k);
      WithoutCons(x, rest + b, k);
      WithoutConcat(rest, b, k);
      Regroup([x], Without(rest, k), b);
      Regroup([x], rest, Without(b, k));
    }
  }

  lemma HeadTail(a: seq<PageKey>, b: seq<PageKey>)
    requires a != []
    ensures a == [a[0]] + a[1..] && a + b == [a[0]] + (a[1..] + b)
    ensures forall k :: k in a <==> k == a[0] || k in a[1..]
  {
  }

  lemma WithoutCons(x: PageKey, rest: seq<PageKey>, k: PageKey)
    ensures Without([x] + rest, k) == if x == k then rest else [x] + Without(rest, k)
  {
    assert ([x] + rest)[1..] == rest;
  }

  lemma Regroup(a: seq<PageKey>, b: seq<PageKey>, c: seq<PageKey>)
    ensures a + (b + c) == a + b + c
  {
  }

  lemma WithoutFirst(order: seq<PageKey>)
    requires order != []
    ensures Without(order, order[0]) == order[1..]
  {
  }

  lemma NestedAfterLru(n: nat, m: nat, small: seq<PageKey>, big: seq<PageKey>, k: PageKey)
    requires 1 <= n <= m && NoDup(big) && |small| <= n && |big| <= m && Nested(LRU, n, small, big)
    ensures Nested(LRU, n, Used(LRU, n, small, k), Used(LRU, m, big, k))
  {
    var pre := big[..|big| - |small|];
    assert big == pre + small;
    hide Used, Nested, NoDup, Without;
    if k in small {
      BothHit(n, m, pre, small, big, k);
    } else if k in pre {
      OldHit(n, m, pre, small, big, k);
    } else {
      assert k !in big;
      NoHit(n, m, pre, small, big, k);
    }
  }

  lemma BothHit(n: nat, m: nat, pre: seq<PageKey>, small: seq<PageKey>, big: seq<PageKey>, k: PageKey)
    requires 1 <= n <= m && big == pre + small && NoDup(big) && k in small
    ensures Nested(LRU, n, Used(LRU, n, small, k), Used(LRU, m, big, k))
  {
    NotAhead(pre, small, big, k);
    WithoutConcat(pre, small, k);
    UsedOld(n, small, k);
    UsedOld(m, big, k);
    hide Without, Used;
    assert pre + Without(small, k) + [k] == pre + (Without(small, k) + [k]);
    Suffix(pre, Used(LRU, n, small, k), Used(LRU, m, big, k), n);
  }

  lemma OldHit(n: nat, m: nat, pre: seq<PageKey>, small: seq<PageKey>, big: seq<PageKey>, k: PageKey)
    requires 1 <= n <= m && |small| <= n && big == pre + small && k in pre && k !in small
    ensures Nested(LRU, n, Used(LRU, n, small, k), Used(LRU, m, big, k))
  {
    WithoutConcat(pre, small, k);
    UsedNew(n, small, k);
    assert k in big by {
      var i :| 0 <= i < |pre| && pre[i] == k;
      assert big[i] == k;
    }
    hide Without, Used;
    var w := Without(pre, k);
    var gone := if |small| < n then [] else [small[0]];
    assert w + small + [k] == (w + gone) + Used(LRU, n, small, k);
    assert Used(LRU, m, big, k) == w + small + [k] by {
      UsedOld(m, big, k);
    }
    Suffix(w + gone, Used(LRU, n, small, k), Used(LRU, m, big, k), n);
  }

  lemma NoHit(n: nat, m: nat, pre: seq<PageKey>, small: seq<PageKey>, big: seq<PageKey>, k: PageKey)
    requires 1 <= n <= m && |small| <= n && |big| <= m && big == pre + small && k !in big && k !in small
    ensures Nested(LRU, n, Used(LRU, n, small, k), Used(LRU, m, big, k))
  {
    UsedNew(n, small, k);
    UsedNew(m, big, k);
    hide Used, Without;
    var keptSmall := if |small| < n then small else small[1..];
    var keptBig := if |big| < m then big else big[1..];
    KeptSuffix(n, m, pre, small, big);
    SuffixPlus(keptSmall, keptBig, k, n);
  }

  lemma SuffixPlus(small: seq<PageKey>, big: seq<PageKey>, k: PageKey, n: nat)
    requires |small| <= |big| && big[|big| - |small|..] == small
    ensures Nested(LRU, n, small + [k], big + [k])
  {
    var front := big[..|big| - |small|];
    assert big == front + small;
    assert big + [k] == front + (small + [k]);
    Suffix(front, small + [k], big + [k], n);
  }

  lemma KeptSuffix(n: nat, m: nat, pre: seq<PageKey>, small: seq<PageKey>, big: seq<PageKey>)
    requires 1 <= n <= m && |small| <= n && |big| <= m && big == pre + small
    ensures var s := if |small| < n then small else small[1..]; var b := if |big| < m then big else big[1..];
            |s| <= |b| && b[|b| - |s|..] == s
  {
  }

  lemma UsedOld(n: nat, order: seq<PageKey>, k: PageKey)
    requires n >= 1 && k in order
    ensures Used(LRU, n, order, k) == Without(order, k) + [k]
  {
  }

  lemma Suffix(front: seq<PageKey>, small: seq<PageKey>, big: seq<PageKey>, n: nat)
    requires big == front + small
    ensures Nested(LRU, n, small, big)
  {
  }

  lemma NotAhead(pre: seq<PageKey>, small: seq<PageKey>, big: seq<PageKey>, k: PageKey)
    requires big == pre + small && NoDup(big) && k in small
    ensures k !in pre && k in big
  {
    var i :| 0 <= i < |small| && small[i] == k;
    assert big[|pre| + i] == k;
    forall j | 0 <= j < |pre| ensures pre[j] != k {
      assert big[j] != big[|pre| + i];
    }
  }

  lemma UsedNew(n: nat, small: seq<PageKey>, k: PageKey)
    requires n >= 1 && k !in small && |small| <= n
    ensures Used(LRU, n, small, k) == (if |small| < n then small else small[1..]) + [k]
  {
    if |small| == n {
      WithoutFirst(small);
    }
  }

  lemma NestedAfterMru(n: nat, m: nat, small: seq<PageKey>, big: seq<PageKey>, k: PageKey)
    requires 1 <= n <= m && NoDup(small) && NoDup(big) && |small| <= n && |big| <= m && Nested(MRU, n, small, big)
    ensures Nested(MRU, n, Used(MRU, n, small, k), Used(MRU, m, big, k))
  {
    hide Used, NoDup;
    if |small| < n {
      UsedSame(n, m, small, k);
    }
    UsedMru(n, small, k);
    UsedMru(m, big, k);
  }

  lemma UsedSame(n: nat, m: nat, order: seq<PageKey>, k: PageKey)
    requires |order| < n <= m
    ensures Used(MRU, n, order, k) == Used(MRU, m, order, k)
  {
  }

  lemma UsedMru(n: nat, order: seq<PageKey>, k: PageKey)
    requires n >= 1 && NoDup(order) && |order| <= n
    ensures var u := Used(MRU, n, order, k);
            && u != [] && Last(u) == k
            && (forall j :: j in u <==> j == k || (j in order && (k in order || |order| < n || j != Last(order))))
            && |u| == |order| + if k in order || |order| == n then 0 else 1
  {
    WithoutEffect(order, k);
    if order != [] {
      WithoutEffect(order, Last(order));
    }
  }

  /** One use of a page keeps the small pool inside the large one. */
  lemma NestedAfter(policy: Policy, n: nat, m: nat, small: seq<PageKey>, big: seq<PageKey>, k: PageKey)
    requires 1 <= n <= m && NoDup(small) && NoDup(big) && |small| <= n && |big| <= m && Nested(policy, n, small, big)
    ensures Nested(policy, n, Used(policy, n, small, k), Used(policy, m, big, k))
  {
    if policy == LRU {
      NestedAfterLru(n, m, small, big, k);
    } else {
      NestedAfterMru(n, m, small, big, k);
    }
  }

  // ---------------------------------------------------------------- what two engines share

  /** The parts of the core that the client's operations depend on; log flushing, the dirty page
      table and the files may differ. */
  predicate SameLedger(c1: Core, c2: Core) {
    && c1.cfg == c2.cfg && c1.tx == c2.tx && c1.ops == c2.ops && c1.nextLsn == c2.nextLsn
    && c1.nextXid == c2.nextXid && c1.numPages == c2.numPages
  }

  /** Every cached page has been allocated. */
  predicate WithinBounds(s: Sys) {
    forall k :: k in s.frames ==> k.pid < NumPages(s.core, k.file)
  }

  /** Two engines a client cannot tell apart. */
  ghost predicate Alike(s1: Sys, s2: Sys) {
    && SysInv(s1) && SysInv(s2) && WithinBounds(s1) && WithinBounds(s2)
    && SameLedger(s1.core, s2.core)
    && forall k :: Logical(s1, k) == Logical(s2, k)
  }

  /** The client writes allocated pages only, under its own transaction. */
  predicate Proper(c: Core, op: Op) {
    match op
    case Write(xid, k, _) => MayWrite(c, xid) && Listable(k.file) && k.pid != NumPages(c, k.file)
    case CommitOp(xid) => xid in c.tx && 0 <= xid < c.nextXid
    case Allocate(f) => ValidFileId(f)
    case NewFile(f) => ValidFileId(f)
    case _ => true
  }

  lemma ProperEnabled(s: Sys, op: Op)
    requires SysInv(s) && WithinBounds(s) && Proper(s.core, op)
    ensures Enabled(s, op)
  {
    hide SysInvBut, SameStore, PagesWritten, Zeros;
    if op.Allocate? {
      AllocatePageInv(s, op.file);
    }
  }

  datatype Outcome = GotPage(page: Option<Bytes>) | GotPid(pid: Option<nat>) | Done

  ghost function OutcomeOf(s: Sys, op: Op): Outcome
    requires FramesOk(s)
  {
    match op
    case Read(k) => GotPage(GetPage(s, k).1)
    case Write(xid, k, data) => GotPage(WritePage(s, Some(xid), k, data).1)
    case Allocate(f) => GotPid(AllocatePage(s, f).1)
    case _ => Done
  }

  // ---------------------------------------------------------------- the ledger under core steps

  lemma FlushLedger(c: Core)
    ensures SameLedger(FlushLog(c), c)
  {
  }

  lemma EmitLedger(c1: Core, c2: Core, lsn: nat, xid: int, body1: Body, body2: Body)
    requires SameLedger(c1, c2)
    ensures SameLedger(EmitWithLsn(c1, lsn, xid, body1), EmitWithLsn(c2, lsn, xid, body2))
  {
    BufferedLedger(c1, c2, lsn, xid, body1, body2);
    FlushIfFullLedger(Buffered(c1, lsn, xid, body1));
    FlushIfFullLedger(Buffered(c2, lsn, xid, body2));
    hide Buffered, FlushIfFull, SameLedger;
    LedgerBetween(EmitWithLsn(c1, lsn, xid, body1), Buffered(c1, lsn, xid, body1), Buffered(c2, lsn, xid, body2),
                  EmitWithLsn(c2, lsn, xid, body2));
  }

  lemma BufferedLedger(c1: Core, c2: Core, lsn: nat, xid: int, body1: Body, body2: Body)
    requires SameLedger(c1, c2)
    ensures SameLedger(Buffered(c1, lsn, xid, body1), Buffered(c2, lsn, xid, body2))
  {
  }

  lemma FlushIfFullLedger(c: Core)
    ensures SameLedger(FlushIfFull(c), c)
  {
    FlushLedger(c);
  }

  lemma EmitNextLedger(c1: Core, c2: Core, xid: int, body1: Body, body2: Body)
    requires SameLedger(c1, c2)
    ensures SameLedger(Emit(c1, xid, body1), Emit(c2, xid, body2))
  {
    hide EmitWithLsn;
    EmitLedger(c1.(nextLsn := c1.nextLsn + 1), c2.(nextLsn := c1.nextLsn + 1), c1.nextLsn, xid, body1, body2);
  }

  lemma CheckpointLedger(c1: Core, c2: Core)
    requires SameLedger(c1, c2)
    ensures SameLedger(MaybeCheckpoint(c1), MaybeCheckpoint(c2))
  {
    hide Emit;
    var a1, a2 := c1.(ops := c1.ops + 1), c2.(ops := c2.ops + 1);
    EmitNextLedger(a1, a2, SYS_XID, BeginCkpt, BeginCkpt);
    var b1, b2 := Emit(a1, SYS_XID, BeginCkpt), Emit(a2, SYS_XID, BeginCkpt);
    EmitNextLedger(b1, b2, SYS_XID, EndCkpt(b1.tx, b1.dpt), EndCkpt(b2.tx, b2.dpt));
  }

  lemma BeginLedger(c1: Core, c2: Core)
    requires SameLedger(c1, c2)
    ensures SameLedger(BeginTx(c1), BeginTx(c2))
  {
    hide MaybeCheckpoint;
    CheckpointLedger(NewTx(c1), NewTx(c2));
  }

  lemma CommitLedger(c1: Core, c2: Core, xid: int)
    requires SameLedger(c1, c2)
    ensures SameLedger(CommitTx(c1, xid), CommitTx(c2, xid))
  {
    hide Emit;
    EmitNextLedger(c1, c2, xid, Commit, Commit);
    var a1, a2 := SetCommitted(FlushLog(Emit(c1, xid, Commit)), xid), SetCommitted(FlushLog(Emit(c2, xid, Commit)), xid);
    EmitNextLedger(a1, a2, xid, End, End);
  }

  lemma UpdateLedger(c1: Core, c2: Core, xid: int, k: PageKey, b1: Option<Bytes>, b2: Option<Bytes>, after: Bytes)
    requires SameLedger(c1, c2) && |after| >= HEADER_SIZE && BeforeImage(b1, |after|) == BeforeImage(b2, |after|)
    ensures var (r1, r2) := (LogPageUpdate(c1, Some(xid), k, b1, after), LogPageUpdate(c2, Some(xid), k, b2, after));
            SameLedger(r1.0, r2.0) && r1.1 == r2.1
  {
    hide EmitWithLsn, MaybeCheckpoint, DiffRange, Stamp, BeforeImage, AddDirty, PatchAt, RestoreAt;
    var lsn := c1.nextLsn;
    var stamped := Stamp(after, lsn);
    var full := BeforeImage(b1, |stamped|);
    var a1, a2 := c1.(nextLsn := lsn + 1), c2.(nextLsn := lsn + 1);
    match DiffRange(full, stamped)
    case None =>
    case Some((lo, hi)) =>
      DiffWindow(full, stamped);
      var body := Update(k, lo, full[lo..hi], stamped[lo..hi]);
      EmitLedger(a1, a2, lsn, xid, body, body);
      var e1, e2 := EmitWithLsn(a1, lsn, xid, body), EmitWithLsn(a2, lsn, xid, body);
      DirtyLedger(e1, e2, k, lsn);
      CheckpointLedger(AddDirty(e1, k, lsn), AddDirty(e2, k, lsn));
  }

  /** The ledger does not include the dirty page table. */
  lemma DirtyLedger(c1: Core, c2: Core, k: PageKey, lsn: nat)
    requires SameLedger(c1, c2)
    ensures SameLedger(AddDirty(c1, k, lsn), AddDirty(c2, k, lsn))
  {
  }

  lemma WriteBackLedger(c: Core, k: PageKey, data: Bytes)
    requires FilePart(c) && ValidFileId(k.file) && k.pid < NumPages(c, k.file) && |data| >= HEADER_SIZE
    ensures SameLedger(WriteBack(c, k, data).0, c)
  {
    hide PutPage, FilesOk;
  }

  // ---------------------------------------------------------------- the ledger under pool steps

  lemma MakeRoomLedger(s: Sys, x: set<PageKey>)
    requires SysInvBut(s, x) && WithinBounds(s) && forall k :: k in x ==> k !in s.frames
    ensures var (s', ok) := MakeRoom(s);
            && ok && SameLedger(s'.core, s.core) && WithinBounds(s') && |s'.order| < s'.poolSize
            && s'.order == Evicted(s.policy, s.poolSize, s.order)
  {
    hide Inv, TxInv, Content, WriteBack, SameLedger;
    MakeRoomInv(s, x);
    if |s.order| >= s.poolSize {
      var v := VictimOf(s.policy, s.order);
      assert v in s.order && v in s.frames && Placed(s.core, v);
      if IsDirty(s, v) {
        CoreFiles(s.core);
        PageSizeOk(s.core);
        WriteBackLedger(s.core, v, s.frames[v]);
        TightLedger(s, WriteBack(s.core, v, s.frames[v]).0);
      }
    }
    LedgerSelf(s.core);
  }

  lemma CoreFiles(c: Core)
    requires Inv(c)
    ensures FilePart(c)
  {
  }

  lemma LedgerSelf(c: Core)
    ensures SameLedger(c, c)
  {
  }

  lemma TightLedger(s: Sys, c: Core)
    requires WithinBounds(s) && SameLedger(c, s.core)
    ensures WithinBounds(s.(core := c)) && c.cfg == s.core.cfg
  {
  }

  /** What a use of page k does to the ledger and to the order of the frames. */
  ghost predicate UsedPage(s: Sys, s': Sys, k: PageKey)
    requires s.poolSize >= 1
  {
    && SameLedger(s'.core, s.core) && WithinBounds(s') && s'.poolSize == s.poolSize && s'.policy == s.policy
    && s'.order == Used(s.policy, s.poolSize, s.order, k)
  }

  lemma ReadLedger(s: Sys, k: PageKey)
    requires SysInv(s) && WithinBounds(s) && Readable(s, k)
    ensures UsedPage(s, GetPage(s, k).0, k)
  {
    hide Inv, TxInv, Content, MakeRoom, SameLedger, DiskPage, Evicted;
    LedgerSelf(s.core);
    if k !in s.frames {
      MakeRoomLedger(s, {});
      MakeRoomInv(s, {});
      SamePids(s.core, MakeRoom(s).0.core);
    }
  }

  lemma SamePids(c: Core, c': Core)
    requires SameLedger(c', c)
    ensures forall f :: NumPages(c', f) == NumPages(c, f)
  {
  }

  lemma StoreLedger(s: Sys, k: PageKey, data: Bytes)
    requires SysInvBut(s, {k}) && WithinBounds(s) && k.pid < NumPages(s.core, k.file)
    ensures UsedPage(s, StoreFrame(s, k, data).0, k)
  {
    hide Inv, TxInv, Content, MakeRoom, SameLedger, Evicted;
    LedgerSelf(s.core);
    if k !in s.frames {
      MakeRoomLedger(s, {k});
      MakeRoomInv(s, {k});
      SamePids(s.core, MakeRoom(s).0.core);
    }
  }

  lemma {:induction false} FlushLedgers(s: Sys, ks: seq<PageKey>)
    requires SysInv(s) && WithinBounds(s) && forall k :: k in ks ==> k in s.frames
    ensures var s' := FlushFrames(s, ks).0; SameLedger(s'.core, s.core) && WithinBounds(s') && s'.order == s.order
    decreases |ks|
  {
    hide Inv, TxInv, WriteBack, SameLedger;
    LedgerSelf(s.core);
    if ks != [] {
      var k := ks[0];
      assert k in ks && Placed(s.core, k) && Content(s, k);
      if IsDirty(s, k) {
        CoreFiles(s.core);
        PageSizeOk(s.core);
        WriteBackInv(s.core, k);
        var c := WriteBack(s.core, k, s.frames[k]).0;
        CleanInv(s, c, k);
        WriteBackLedger(s.core, k, s.frames[k]);
        TightLedger(s, c);
        FlushLedgers(s.(core := c, dirty := s.dirty[k := false]), ks[1..]);
        LedgerThen(s.core, c, FlushFrames(s.(core := c, dirty := s.dirty[k := false]), ks[1..]).0.core);
      } else {
        FlushLedgers(s, ks[1..]);
      }
    }
  }

  lemma LedgerThen(c: Core, c1: Core, c2: Core)
    requires SameLedger(c1, c) && SameLedger(c2, c1)
    ensures SameLedger(c2, c)
  {
  }

  // ---------------------------------------------------------------- operations

  /** The page an operation uses, if it succeeds and uses one. */
  function PageUsed(s: Sys, op: Op): Option<PageKey> {
    match op
    case Read(k) => if Readable(s, k) then Some(k) else None
    case Write(_, k, data) => if ValidWrite(s.core, k, data) then Some(k) else None
    case Allocate(f) => Some(PageKey(f, NumPages(s.core, f)))
    case _ => None
  }

  lemma LoggedWrite(s: Sys, xid: int, k: PageKey, data: Bytes)
    requires SysInv(s) && WithinBounds(s) && MayWrite(s.core, xid) && Listable(k.file) && ValidWrite(s.core, k, data)
    ensures var (c, page) := LogPageUpdate(s.core, Some(xid), k, CurrentBytes(s, k), data);
            && SysInvBut(s.(core := c), {k}) && WithinBounds(s.(core := c)) && c.numPages == s.core.numPages
            && |page| == s.core.cfg.pageSize
  {
    hide TxInv, HistPart, LogPart, RunPage, DiskPage, FullLog, LogPageUpdate, BeforeImage, Current, Stamp, CurrentBytes;
    BeforeIsCurrent(s, k);
    CurrentDef(s.core, k);
    LogPageUpdateInv(s.core, xid, k, CurrentBytes(s, k), data);
    var (c, page) := LogPageUpdate(s.core, Some(xid), k, CurrentBytes(s, k), data);
    LoggedInv(s, c, k, page);
  }

  lemma WriteAlike(s1: Sys, s2: Sys, xid: int, k: PageKey, data: Bytes)
    requires Alike(s1, s2) && Proper(s1.core, Write(xid, k, data)) && ValidWrite(s1.core, k, data)
    ensures ValidWrite(s2.core, k, data)
    ensures var (c1, p1) := LogPageUpdate(s1.core, Some(xid), k, CurrentBytes(s1, k), data);
            var (c2, p2) := LogPageUpdate(s2.core, Some(xid), k, CurrentBytes(s2, k), data);
            SameLedger(c1, c2) && p1 == p2
  {
    SameFileNames(s1, s2, k.file);
    hide TxInv, HistPart, LogPart, RunPage, DiskPage, FullLog, LogPageUpdate, BeforeImage, Current, CurrentBytes, SameLedger;
    BeforeIsCurrent(s1, k);
    BeforeIsCurrent(s2, k);
    assert PoolInvariant.Content(s1, k) && PoolInvariant.Content(s2, k);
    LedgerCfg(s1.core, s2.core);
    PageSizeOk(s1.core);
    UpdateLedger(s1.core, s2.core, xid, k, CurrentBytes(s1, k), CurrentBytes(s2, k), data);
  }

  lemma LedgerCfg(c1: Core, c2: Core)
    requires SameLedger(c1, c2)
    ensures c1.cfg == c2.cfg
  {
  }

  lemma SameFileNames(s1: Sys, s2: Sys, f: string)
    requires Alike(s1, s2)
    ensures FileExists(s1.core, f) <==> FileExists(s2.core, f)
    ensures NumPages(s1.core, f) == NumPages(s2.core, f)
  {
    CoreFiles(s1.core);
    CoreFiles(s2.core);
    assert f in s1.core.files.Keys <==> f in s2.core.files.Keys;
  }

  /** One operation of one engine: the ledger after it, and the order of the frames. */
  ghost predicate Stepped(s: Sys, op: Op, c: Core) {
    FramesOk(s) && var s' := Apply(s, op);
    && SameLedger(s'.core, c) && WithinBounds(s') && s'.poolSize == s.poolSize && s'.policy == s.policy
    && s'.order == match PageUsed(s, op) case None => s.order case Some(k) => Used(s.policy, s.poolSize, s.order, k)
  }

  lemma WriteStepped(s: Sys, xid: int, k: PageKey, data: Bytes)
    requires SysInv(s) && WithinBounds(s) && Proper(s.core, Write(xid, k, data))
    ensures Stepped(s, Write(xid, k, data), if ValidWrite(s.core, k, data) then
                      LogPageUpdate(s.core, Some(xid), k, CurrentBytes(s, k), data).0 else s.core)
  {
    hide Inv, TxInv, SameLedger, LogPageUpdate, StoreFrame, CurrentBytes, Used;
    LedgerSelf(s.core);
    if ValidWrite(s.core, k, data) {
      LoggedWrite(s, xid, k, data);
      var (c, page) := LogPageUpdate(s.core, Some(xid), k, CurrentBytes(s, k), data);
      if !FileExists(s.core, k.file) {
        NoSuchFile(s, k);
      }
      StoreLedger(s.(core := c), k, page);
    }
  }

  lemma NoSuchFile(s: Sys, k: PageKey)
    requires SysInv(s) && ValidFileId(k.file) && !FileExists(s.core, k.file)
    ensures NumPages(s.core, k.file) == 0
  {
    CoreFiles(s.core);
    assert k.file !in s.core.files.Keys;
  }

  lemma AllocateStepped(s: Sys, f: string)
    requires SysInv(s) && WithinBounds(s) && ValidFileId(f)
    ensures Stepped(s, Allocate(f), DiskAllocate(s.core, f).0)
  {
    hide Inv, TxInv, SameLedger, MakeRoom, DiskAllocate, Evicted, NumPages, PoolInvariant.Content, DiskPage, Logical, Zeros,
         PagesWritten, Placed;
    DiskAllocateInv(s, f);
    var (c, pid) := DiskAllocate(s.core, f);
    var k := PageKey(f, pid);
    AllocatedTight(s, f);
    var s1 := s.(core := c);
    LedgerSelf(c);
    MakeRoomLedger(s1, {});
    SamePids(c, MakeRoom(s1).0.core);
    MakeRoomInv(s1, {});
    assert k !in s.frames && k !in s.order;
    EvictedRoom(s1.policy, s1.poolSize, s1.order);
  }

  lemma EvictedRoom(policy: Policy, n: nat, order: seq<PageKey>)
    requires n >= 1
    ensures |order| < n ==> Evicted(policy, n, order) == order
  {
  }

  lemma AllocatedTight(s: Sys, f: string)
    requires SysInv(s) && WithinBounds(s) && ValidFileId(f)
    ensures WithinBounds(s.(core := DiskAllocate(s.core, f).0))
    ensures PageKey(f, NumPages(s.core, f)) !in s.frames
  {
    hide Inv, TxInv;
    CoreFiles(s.core);
    var c := DiskAllocate(s.core, f).0;
    assert f in s.core.files.Keys <==> f in s.core.numPages.Keys;
    forall g ensures NumPages(c, g) >= NumPages(s.core, g) {
    }
  }

  /** What the operation makes of the core, seen from its ledger. */
  ghost function CoreAfter(s: Sys, op: Op): Core
    requires FramesOk(s)
  {
    match op
    case Write(xid, k, data) =>
      if ValidWrite(s.core, k, data) then LogPageUpdate(s.core, Some(xid), k, CurrentBytes(s, k), data).0 else s.core
    case Allocate(f) => DiskAllocate(s.core, f).0
    case Begin => BeginTx(s.core)
    case CommitOp(xid) => CommitTx(s.core, xid)
    case NewFile(f) => CreateFile(s.core, f)
    case _ => s.core
  }

  lemma ReadStepped(s: Sys, k: PageKey)
    requires SysInv(s) && WithinBounds(s)
    ensures Stepped(s, Read(k), s.core)
  {
    hide Inv, TxInv, SameLedger, Used, MakeRoom, DiskPage;
    LedgerSelf(s.core);
    if Readable(s, k) {
      ReadLedger(s, k);
    }
  }

  lemma OpStepped(s: Sys, op: Op)
    requires SysInv(s) && WithinBounds(s) && Proper(s.core, op)
    ensures Stepped(s, op, CoreAfter(s, op))
  {
    hide Inv, TxInv, Content, Stepped, WithinBounds, MaybeCheckpoint, CommitTx, CreateFile, LogPageUpdate, DiskAllocate,
         ValidWrite, CurrentBytes;
    match op
    case Write(xid, k, data) => WriteStepped(s, xid, k, data);
    case Allocate(f) => AllocateStepped(s, f);
    case Read(k) => ReadStepped(s, k);
    case FlushPages => FlushStepped(s);
    case ForceLog => ForceStepped(s);
    case Begin =>
      CheckpointPids(NewTx(s.core));
      CoreStepped(s, op, BeginTx(s.core));
    case CommitOp(xid) =>
      CommitPids(s.core, xid);
      CoreStepped(s, op, CommitTx(s.core, xid));
    case NewFile(f) =>
      NewFilePids(s.core, f);
      CoreStepped(s, op, CreateFile(s.core, f));
  }

  lemma FlushStepped(s: Sys)
    requires SysInv(s) && WithinBounds(s)
    ensures Stepped(s, FlushPages, s.core)
  {
    hide Inv, TxInv, SameLedger, DiskPage, Current;
    FlushLedgers(s, s.order);
    FlushInv(s);
  }

  lemma ForceStepped(s: Sys)
    requires SysInv(s) && WithinBounds(s)
    ensures Stepped(s, ForceLog, s.core)
  {
    hide Inv, TxInv, Content;
    FlushLedger(s.core);
  }

  lemma NewFilePids(c: Core, f: string)
    requires Inv(c)
    ensures forall g :: NumPages(CreateFile(c, f), g) >= NumPages(c, g)
  {
    CoreFiles(c);
    assert f in c.files.Keys <==> f in c.numPages.Keys;
  }

  lemma EmitPids(c: Core, xid: int, body: Body)
    ensures Emit(c, xid, body).numPages == c.numPages && Emit(c, xid, body).files == c.files
  {
    hide AppendStates, MakeRec;
  }

  lemma CheckpointPids(c: Core)
    ensures MaybeCheckpoint(c).numPages == c.numPages && MaybeCheckpoint(c).files == c.files
  {
    hide Emit;
    var c1 := c.(ops := c.ops + 1);
    EmitPids(c1, SYS_XID, BeginCkpt);
    var c2 := Emit(c1, SYS_XID, BeginCkpt);
    EmitPids(c2, SYS_XID, EndCkpt(c2.tx, c2.dpt));
  }

  lemma CommitPids(c: Core, xid: int)
    ensures CommitTx(c, xid).numPages == c.numPages
  {
    hide Emit, FlushLog, SetCommitted;
    var c1 := FlushLog(Emit(c, xid, Commit));
    var c2 := SetCommitted(c1, xid);
    EmitPids(c, xid, Commit);
    FlushKeeps(Emit(c, xid, Commit));
    CommittedKeeps(c1, xid);
    EmitPids(c2, xid, End);
    FlushKeeps(Emit(c2, xid, End));
  }

  lemma FlushKeeps(c: Core)
    ensures FlushLog(c).numPages == c.numPages && FlushLog(c).files == c.files
  {
  }

  lemma CommittedKeeps(c: Core, xid: int)
    ensures var c' := SetCommitted(c, xid); c'.numPages == c.numPages && c'.files == c.files && c'.cfg == c.cfg
  {
  }

  lemma CoreStepped(s: Sys, op: Op, c: Core)
    requires SysInv(s) && WithinBounds(s) && Apply(s, op) == s.(core := c)
    requires op.Begin? || op.CommitOp? || op.NewFile?
    requires forall f :: NumPages(c, f) >= NumPages(s.core, f)
    ensures Stepped(s, op, c)
  {
    hide Inv, TxInv, SameLedger, BeginTx, CommitTx, CreateFile, NumPages, GetPage, WritePage, AllocatePage, FlushFrames, Apply;
    LedgerSelf(c);
    forall k | k in s.frames ensures k.pid < NumPages(c, k.file) {
      assert NumPages(c, k.file) >= NumPages(s.core, k.file);
    }
  }

  // ---------------------------------------------------------------- two engines in step

  lemma CoresAlike(s1: Sys, s2: Sys, op: Op)
    requires Alike(s1, s2) && Proper(s1.core, op)
    ensures SameLedger(CoreAfter(s1, op), CoreAfter(s2, op))
  {
    hide Inv, TxInv, PoolInvariant.Content, Logical, SameLedger, LogPageUpdate, CurrentBytes, DiskAllocate, CreateFile,
         BeginTx, CommitTx, WithinBounds;
    match op
    case Write(xid, k, data) =>
      if ValidWrite(s1.core, k, data) {
        WriteAlike(s1, s2, xid, k, data);
      } else {
        SameFileNames(s1, s2, k.file);
        LedgerCfg(s1.core, s2.core);
      }
    case Allocate(f) => NewFilesAlike(s1, s2, f);
    case NewFile(f) => NewFilesAlike(s1, s2, f);
    case Begin => BeginLedger(s1.core, s2.core);
    case CommitOp(xid) => CommitLedger(s1.core, s2.core, xid);
    case _ =>
  }

  lemma NewFilesAlike(s1: Sys, s2: Sys, f: string)
    requires Alike(s1, s2)
    ensures SameLedger(CreateFile(s1.core, f), CreateFile(s2.core, f))
    ensures SameLedger(DiskAllocate(s1.core, f).0, DiskAllocate(s2.core, f).0)
  {
    hide Inv, TxInv, PoolInvariant.Content, Logical, WithinBounds;
    CoreFiles(s1.core);
    CoreFiles(s2.core);
    assert f in s1.core.files.Keys <==> f in s2.core.files.Keys;
  }

  lemma SameUse(s1: Sys, s2: Sys, op: Op)
    requires Alike(s1, s2)
    ensures PageUsed(s1, op) == PageUsed(s2, op)
  {
    hide Inv, TxInv, PoolInvariant.Content, FileExists, NumPages, Logical;
    LedgerCfg(s1.core, s2.core);
    match op
    case Read(k) =>
      SameFileNames(s1, s2, k.file);
      if k in s1.frames {
        CachedIsPlaced(s1, k);
      }
      if k in s2.frames {
        CachedIsPlaced(s2, k);
      }
    case Write(_, k, _) => SameFileNames(s1, s2, k.file);
    case Allocate(f) => SameFileNames(s1, s2, f);
    case _ =>
  }

  lemma CachedIsPlaced(s: Sys, k: PageKey)
    requires SysInv(s) && WithinBounds(s) && k in s.frames
    ensures FileExists(s.core, k.file) && k.pid < NumPages(s.core, k.file)
  {
    assert Placed(s.core, k);
    CoreFiles(s.core);
    assert k.file in s.core.files.Keys <==> k.file in s.core.numPages.Keys;
  }

  /** The logical store after an operation: only a successful write changes it, and only its page. */
  ghost function StoredOutcome(s: Sys, op: Op, j: PageKey): Bytes
    requires FramesOk(s)
  {
    match op
    case Write(xid, k, data) =>
      var r := WritePage(s, Some(xid), k, data).1;
      if r.Some? && j == k then r.value else Logical(s, j)
    case _ => Logical(s, j)
  }

  lemma LogicalAfter(s: Sys, op: Op)
    requires SysInv(s) && WithinBounds(s) && Proper(s.core, op)
    ensures forall j :: Logical(Apply(s, op), j) == StoredOutcome(s, op, j)
  {
    hide Inv, TxInv, DiskPage, Current, GetPage, WritePage, AllocatePage, FlushFrames;
    match op
    case Write(xid, k, data) => WritePageInv(s, xid, k, data);
    case Read(k) => GetPageInv(s, k);
    case Allocate(f) =>
      ProperEnabled(s, op);
      AllocatePageInv(s, f);
    case FlushPages => FlushInv(s);
    case NewFile(f) => NewFilePages(s.core, f);
    case Begin => BeginFiles(s.core);
    case CommitOp(xid) => CommitFiles(s.core, xid);
    case ForceLog =>
  }

  lemma NewFilePages(c: Core, f: string)
    ensures forall k :: DiskPage(CreateFile(c, f).files, c.cfg.pageSize, k) == DiskPage(c.files, c.cfg.pageSize, k)
  {
  }

  lemma BeginFiles(c: Core)
    ensures BeginTx(c).files == c.files && BeginTx(c).cfg == c.cfg
  {
    hide Emit;
    var c1 := NewTx(c).(ops := c.ops + 1);
    EmitFiles(c1, SYS_XID, BeginCkpt);
    var c2 := Emit(c1, SYS_XID, BeginCkpt);
    EmitFiles(c2, SYS_XID, EndCkpt(c2.tx, c2.dpt));
  }

  lemma CommitFiles(c: Core, xid: int)
    ensures CommitTx(c, xid).files == c.files && CommitTx(c, xid).cfg == c.cfg
  {
    hide Emit, FlushLog, SetCommitted;
    var c1 := FlushLog(Emit(c, xid, Commit));
    var c2 := SetCommitted(c1, xid);
    EmitFiles(c, xid, Commit);
    FlushKeeps(Emit(c, xid, Commit));
    CommittedKeeps(c1, xid);
    EmitFiles(c2, xid, End);
    FlushKeeps(Emit(c2, xid, End));
  }

  lemma EmitFiles(c: Core, xid: int, body: Body)
    ensures Emit(c, xid, body).files == c.files
  {
    hide AppendStates, MakeRec;
  }

  lemma SameOutcome(s1: Sys, s2: Sys, op: Op)
    requires Alike(s1, s2) && Proper(s1.core, op)
    ensures OutcomeOf(s1, op) == OutcomeOf(s2, op)
  {
    SameUse(s1, s2, op);
    ProperAlike(s1.core, s2.core, op);
    ProperEnabled(s1, op);
    ProperEnabled(s2, op);
    hide Inv, TxInv, GetPage, WritePage, AllocatePage, Readable, ValidWrite, SysInvBut, Stamp;
    match op
    case Write(xid, k, data) =>
      WritePageInv(s1, xid, k, data);
      WritePageInv(s2, xid, k, data);
    case Read(k) =>
      GetPageInv(s1, k);
      GetPageInv(s2, k);
    case Allocate(f) =>
      AllocatePageInv(s1, f);
      AllocatePageInv(s2, f);
    case _ =>
  }

  lemma ProperAlike(c1: Core, c2: Core, op: Op)
    requires SameLedger(c1, c2) && Proper(c1, op)
    ensures Proper(c2, op)
  {
  }

  /** Every operation gives the client the same answer, and leaves the engines indistinguishable. */
  lemma StepAlike(s1: Sys, s2: Sys, op: Op)
    requires Alike(s1, s2) && Proper(s1.core, op)
    ensures OutcomeOf(s1, op) == OutcomeOf(s2, op)
    ensures Alike(Apply(s1, op), Apply(s2, op))
  {
    hide Inv, TxInv, SameLedger, Apply, Logical, Used, PageUsed, CoreAfter, Proper, Enabled, SysInvBut, WithinBounds;
    SameOutcome(s1, s2, op);
    ProperAlike(s1.core, s2.core, op);
    ProperEnabled(s1, op);
    ProperEnabled(s2, op);
    ApplyInv(s1, op);
    ApplyInv(s2, op);
    OpStepped(s1, op);
    OpStepped(s2, op);
    CoresAlike(s1, s2, op);
    var t1, t2 := Apply(s1, op), Apply(s2, op);
    LedgerBetween(t1.core, CoreAfter(s1, op), CoreAfter(s2, op), t2.core);
    LogicalAfter(s1, op);
    LogicalAfter(s2, op);
    forall j ensures Logical(t1, j) == Logical(t2, j) {
      SameStored(s1, s2, op, j);
    }
  }

  lemma SameStored(s1: Sys, s2: Sys, op: Op, j: PageKey)
    requires FramesOk(s1) && FramesOk(s2) && OutcomeOf(s1, op) == OutcomeOf(s2, op) && Logical(s1, j) == Logical(s2, j)
    ensures StoredOutcome(s1, op, j) == StoredOutcome(s2, op, j)
  {
  }

  lemma LedgerBetween(a: Core, b: Core, c: Core, d: Core)
    requires SameLedger(a, b) && SameLedger(b, c) && SameLedger(d, c)
    ensures SameLedger(a, d)
  {
  }

  // ---------------------------------------------------------------- whole runs

  /** A client that stays within its obligations all along. */
  ghost predicate ProperRun(s: Sys, ops: seq<Op>)
    requires SysInv(s) && WithinBounds(s)
    decreases |ops|
  {
    ops == [] || (Proper(s.core, ops[0]) && (StepInvariant(s, ops[0]); ProperRun(Apply(s, ops[0]), ops[1..])))
  }

  lemma StepInvariant(s: Sys, op: Op)
    requires SysInv(s) && WithinBounds(s) && Proper(s.core, op)
    ensures SysInv(Apply(s, op)) && WithinBounds(Apply(s, op))
  {
    hide Inv, TxInv, SameLedger, Apply, Used, PageUsed, CoreAfter, Proper, Enabled, SysInvBut;
    ProperEnabled(s, op);
    ApplyInv(s, op);
    OpStepped(s, op);
  }

  /** What the client is told, operation by operation. */
  ghost function Outcomes(s: Sys, ops: seq<Op>): seq<Outcome>
    requires SysInv(s) && WithinBounds(s) && ProperRun(s, ops)
    decreases |ops|
  {
    if ops == [] then []
    else
      StepInvariant(s, ops[0]);
      [OutcomeOf(s, ops[0])] + Outcomes(Apply(s, ops[0]), ops[1..])
  }

  ghost function After(s: Sys, ops: seq<Op>): (t: Sys)
    requires SysInv(s) && WithinBounds(s) && ProperRun(s, ops)
    ensures SysInv(t) && WithinBounds(t)
    decreases |ops|
  {
    if ops == [] then s
    else
      StepInvariant(s, ops[0]);
      After(Apply(s, ops[0]), ops[1..])
  }

  /** Operations that found their page in the pool. */
  ghost function Hits(s: Sys, ops: seq<Op>): nat
    requires SysInv(s) && WithinBounds(s) && ProperRun(s, ops)
    decreases |ops|
  {
    if ops == [] then 0
    else
      StepInvariant(s, ops[0]);
      (if IsHit(s, ops[0]) then 1 else 0) + Hits(Apply(s, ops[0]), ops[1..])
  }

  predicate IsHit(s: Sys, op: Op) {
    (op.Read? || op.Write?) && PageUsed(s, op).Some? && PageUsed(s, op).value in s.order
  }

  /** The pool is invisible: whatever the sizes and policies of two pools, the same operations give
      the same answers, and the logical stores stay equal. */
  lemma {:induction false} PoolIsInvisible(s1: Sys, s2: Sys, ops: seq<Op>)
    requires Alike(s1, s2) && ProperRun(s1, ops)
    ensures ProperRun(s2, ops)
    ensures Outcomes(s1, ops) == Outcomes(s2, ops)
    ensures Alike(After(s1, ops), After(s2, ops))
    decreases |ops|
  {
    hide SysInv, WithinBounds, SameLedger, Apply, Logical, Proper, Alike;
    AlikeParts(s1, s2);
    if ops != [] {
      ProperAlike(s1.core, s2.core, ops[0]);
      StepInvariant(s1, ops[0]);
      StepInvariant(s2, ops[0]);
      StepAlike(s1, s2, ops[0]);
      PoolIsInvisible(Apply(s1, ops[0]), Apply(s2, ops[0]), ops[1..]);
    }
  }

  lemma AlikeParts(s1: Sys, s2: Sys)
    requires Alike(s1, s2)
    ensures SysInv(s1) && SysInv(s2) && WithinBounds(s1) && WithinBounds(s2) && SameLedger(s1.core, s2.core)
    ensures FramesOk(s1) && FramesOk(s2)
  {
  }

  // ---------------------------------------------------------------- a write past the end

  /** An eviction of a page past the end moves the page count; a page left in its frame does not. */
  lemma WriteBackCounts(c: Core, k: PageKey, data: Bytes)
    requires |data| >= HEADER_SIZE && k.pid == NumPages(c, k.file)
    ensures WriteBack(c, k, data).1 ==> NumPages(WriteBack(c, k, data).0, k.file) == k.pid + 1
  {
    hide PageLsn, PutPage, FlushLog;
    FlushKeeps(c);
  }

  /** The pool after a page just past the end of its file has been written into an empty pool. */
  lemma WrittenAlone(s: Sys, xid: int, k: PageKey, data: Bytes)
    requires SysInv(s) && s.order == [] && s.frames == map[] && MayWrite(s.core, xid) && Listable(k.file)
    requires ValidWrite(s.core, k, data) && k.pid == NumPages(s.core, k.file)
    ensures var s1 := WritePage(s, Some(xid), k, data).0;
            && SysInv(s1) && s1.order == [k] && s1.frames.Keys == {k} && IsDirty(s1, k)
            && s1.core.numPages == s.core.numPages && s1.core.files == s.core.files && s1.core.cfg == s.core.cfg
            && s1.poolSize == s.poolSize && s1.policy == s.policy
  {
    hide SysInv, MayWrite, DiskPage, LogPageUpdate, Stamp, CurrentBytes, Grows, Logical;
    SysFrames(s);
    WritePageInv(s, xid, k, data);
    SysFrames(WritePage(s, Some(xid), k, data).0);
    UpdateKeepsFiles(s.core, xid, k, CurrentBytes(s, k), data);
  }

  lemma SysFrames(s: Sys)
    requires SysInv(s)
    ensures FramesOk(s)
  {
  }

  lemma UpdateKeepsFiles(c: Core, xid: int, k: PageKey, before: Option<Bytes>, data: Bytes)
    requires |data| >= HEADER_SIZE
    ensures var c' := LogPageUpdate(c, Some(xid), k, before, data).0;
            c'.files == c.files && c'.numPages == c.numPages && c'.cfg == c.cfg
  {
    hide DiffRange, Stamp, BeforeImage, EmitWithLsn, MaybeCheckpoint;
    var full, stamped := BeforeImage(before, |data|), Stamp(data, c.nextLsn);
    match DiffRange(full, stamped)
    case None =>
    case Some((lo, hi)) =>
      UpdateTail(c.(nextLsn := c.nextLsn + 1), c.nextLsn, xid, k, Update(k, lo, full[lo..hi], stamped[lo..hi]));
  }

  lemma UpdateTail(c: Core, lsn: nat, xid: int, k: PageKey, body: Body)
    ensures var c' := MaybeCheckpoint(AddDirty(EmitWithLsn(c, lsn, xid, body), k, lsn));
            c'.files == c.files && c'.numPages == c.numPages
  {
    hide EmitWithLsn, MaybeCheckpoint;
    EmitWithLsnPids(c, lsn, xid, body);
    CheckpointPids(AddDirty(EmitWithLsn(c, lsn, xid, body), k, lsn));
  }

  lemma EmitWithLsnPids(c: Core, lsn: nat, xid: int, body: Body)
    ensures EmitWithLsn(c, lsn, xid, body).numPages == c.numPages && EmitWithLsn(c, lsn, xid, body).files == c.files
  {
    hide AppendStates, MakeRec;
  }

  /** Reading another page pushes the written one out of a pool of one frame, and so moves the page count. */
  lemma PushedOut(s: Sys, k: PageKey, j: PageKey)
    requires SysInv(s) && s.poolSize == 1 && s.order == [k] && s.frames.Keys == {k} && IsDirty(s, k)
    requires k.pid == NumPages(s.core, k.file) && j != k && DiskRead(s.core, j).Some?
    ensures SysInv(GetPage(s, j).0) && NumPages(GetPage(s, j).0.core, k.file) == k.pid + 1
  {
    hide Inv, TxInv, DiskPage, WriteBack, Current, Placed, Grows, Without, NumPages;
    GetPageInv(s, j);
    assert Content(s, k) && Placed(s.core, k);
    WriteBackInv(s.core, k);
    WriteBackCounts(s.core, k, s.frames[k]);
  }

  /** A second frame keeps it. */
  lemma KeptInside(s: Sys, k: PageKey, j: PageKey)
    requires SysInv(s) && s.poolSize >= 2 && s.order == [k] && s.frames.Keys == {k}
    requires k.pid == NumPages(s.core, k.file) && j != k && DiskRead(s.core, j).Some?
    ensures SysInv(GetPage(s, j).0) && NumPages(GetPage(s, j).0.core, k.file) == k.pid
  {
    hide Inv, TxInv, DiskPage, WriteBack, Current, Placed, Grows, Without, NumPages;
    GetPageInv(s, j);
  }

  /** The answers to a write just past the end of a file, a read and an allocation. */
  lemma PastEnd(s: Sys, xid: int, k: PageKey, data: Bytes, j: PageKey)
    requires SysInv(s) && s.order == [] && s.frames == map[] && s.poolSize <= 2
    requires MayWrite(s.core, xid) && Listable(k.file) && ValidWrite(s.core, k, data)
    requires k.pid == NumPages(s.core, k.file) && j != k && DiskRead(s.core, j).Some?
    ensures FramesOk(s)
    ensures var s1 := WritePage(s, Some(xid), k, data).0;
            && FramesOk(s1) && WritePage(s, Some(xid), k, data).1 == Some(Stamp(data, s.core.nextLsn))
            && var s2 := GetPage(s1, j).0;
            && FramesOk(s2) && GetPage(s1, j).1 == Some(DiskPage(s.core.files, s.core.cfg.pageSize, j))
            && AllocatePage(s2, k.file).1 == Some(if s.poolSize == 1 then k.pid + 1 else k.pid)
  {
    hide SysInv, WritePage, GetPage, AllocatePage, Grows, NumPages, MayWrite, SameStore, PagesWritten, FramesOk, Stamp,
         DiskPage, Zeros;
    SysFrames(s);
    WritePageInv(s, xid, k, data);
    WrittenAlone(s, xid, k, data);
    var s1 := WritePage(s, Some(xid), k, data).0;
    SysFrames(s1);
    SameCount(s.core, s1.core, k, j);
    GetPageInv(s1, j);
    if s.poolSize == 1 {
      PushedOut(s1, k, j);
    } else {
      assert s.poolSize == 2 by {
        PoolNotEmpty(s);
      }
      KeptInside(s1, k, j);
    }
    SysFrames(GetPage(s1, j).0);
    AllocatePageInv(GetPage(s1, j).0, k.file);
  }

  lemma PoolNotEmpty(s: Sys)
    requires SysInv(s)
    ensures s.poolSize >= 1
  {
  }

  /** Why the client of `PoolIsInvisible` writes allocated pages only: after a write just past the end of a file and
      one read, a pool of one frame allocates the page after the written one, a pool of two the written one again. */
  lemma PastEndShows(s: Sys, xid: int, k: PageKey, data: Bytes, j: PageKey)
    requires SysInv(s) && s.order == [] && s.frames == map[] && s.poolSize == 1
    requires MayWrite(s.core, xid) && Listable(k.file) && ValidWrite(s.core, k, data)
    requires k.pid == NumPages(s.core, k.file) && j != k && DiskRead(s.core, j).Some?
    ensures var t := s.(poolSize := 2);
            && SysInv(t)
            && var s1, t1 := Apply(s, Write(xid, k, data)), Apply(t, Write(xid, k, data));
            && FramesOk(s1) && FramesOk(t1) && OutcomeOf(s, Write(xid, k, data)) == OutcomeOf(t, Write(xid, k, data))
            && var s2, t2 := Apply(s1, Read(j)), Apply(t1, Read(j));
            && FramesOk(s2) && FramesOk(t2) && OutcomeOf(s1, Read(j)) == OutcomeOf(t1, Read(j))
            && OutcomeOf(s2, Allocate(k.file)) == GotPid(Some(k.pid + 1)) && OutcomeOf(t2, Allocate(k.file)) == GotPid(Some(k.pid))
  {
    hide SysInv, WritePage, GetPage, AllocatePage, NumPages, MayWrite, ValidWrite, FramesOk, Stamp, DiskPage, DiskRead;
    EmptyPools(s);
    PastEnd(s, xid, k, data, j);
    PastEnd(s.(poolSize := 2), xid, k, data, j);
  }

  lemma EmptyPools(s: Sys)
    requires SysInv(s) && s.order == [] && s.frames == map[]
    ensures SysInv(s.(poolSize := 2))
  {
    hide Inv, TxInv, DiskPage, Current;
    forall k ensures Content(s.(poolSize := 2), k) {
      assert Content(s, k);
    }
  }

  lemma SameCount(c: Core, c': Core, k: PageKey, j: PageKey)
    requires c'.numPages == c.numPages && c'.files == c.files && c'.cfg == c.cfg && DiskRead(c, j).Some?
    ensures NumPages(c', k.file) == NumPages(c, k.file) && DiskRead(c', j).Some?
  {
  }

  /** A pool inside a larger pool of the same policy. */
  ghost predicate Inside(s1: Sys, s2: Sys) {
    && Alike(s1, s2) && s1.policy == s2.policy && s1.poolSize <= s2.poolSize
    && Nested(s1.policy, s1.poolSize, s1.order, s2.order)
  }

  lemma StepInside(s1: Sys, s2: Sys, op: Op)
    requires Inside(s1, s2) && Proper(s1.core, op)
    ensures Inside(Apply(s1, op), Apply(s2, op))
    ensures IsHit(s1, op) ==> IsHit(s2, op)
  {
    hide Inv, TxInv, SameLedger, Apply, Logical, Used, PageUsed, CoreAfter, Proper, Nested;
    StepAlike(s1, s2, op);
    ProperAlike(s1.core, s2.core, op);
    OpStepped(s1, op);
    OpStepped(s2, op);
    SameUse(s1, s2, op);
    NestedSubset(s1.policy, s1.poolSize, s1.order, s2.order);
    if PageUsed(s1, op).Some? {
      NestedAfter(s1.policy, s1.poolSize, s2.poolSize, s1.order, s2.order, PageUsed(s1, op).value);
    }
  }

  /** The stack property: over any run a smaller pool only ever holds pages that a larger pool of the
      same policy holds too, so hits never fall as the pool grows. */
  lemma {:induction false} StackProperty(s1: Sys, s2: Sys, ops: seq<Op>)
    requires Inside(s1, s2) && ProperRun(s1, ops)
    ensures ProperRun(s2, ops)
    ensures forall k :: k in After(s1, ops).frames ==> k in After(s2, ops).frames
    ensures Hits(s1, ops) <= Hits(s2, ops)
    decreases |ops|
  {
    hide SysInv, WithinBounds, SameLedger, Apply, Logical, Proper, Alike, IsHit;
    AlikeParts(s1, s2);
    if ops != [] {
      ProperAlike(s1.core, s2.core, ops[0]);
      StepInvariant(s1, ops[0]);
      StepInvariant(s2, ops[0]);
      StepInside(s1, s2, ops[0]);
      StackProperty(Apply(s1, ops[0]), Apply(s2, ops[0]), ops[1..]);
    } else {
      NestedSubset(s1.policy, s1.poolSize, s1.order, s2.order);
      FramesAreOrder(s1);
      FramesAreOrder(s2);
    }
  }

  lemma FramesAreOrder(s: Sys)
    requires SysInv(s)
    ensures forall k :: k in s.order <==> k in s.frames
  {
  }

  /** Two empty databases, whatever their pools. */
  lemma FreshInside(cfg: Config, n: nat, m: nat, policy: Policy)
    requires cfg.pageSize >= HEADER_SIZE && 1 <= n <= m
    ensures Inside(Fresh(cfg, n, policy), Fresh(cfg, m, policy))
  {
    hide Inv, TxInv;
    FreshInv(cfg, n, policy);
    FreshInv(cfg, m, policy);
  }
}
