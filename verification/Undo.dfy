/** Phase 3 of recovery: removing the losers' changes byte by byte, newest first. */
module Undo {
  import opened Pages
  import opened Log
  import opened Engine
  import opened PoolInvariant
  import opened Redo

  // ---------------------------------------------------------------- one page

  /** Update `u` altered byte b of its page. */
  predicate Changes(u: Rec, b: nat) {
    u.body.Update? && u.body.off <= b < u.body.off + |u.body.before|
    && Differs(u.body.before, u.body.after, b - u.body.off)
  }

  function Unpatch(p: Bytes, u: Rec): (q: Bytes)
    ensures |q| == |p|
    ensures forall b :: 0 <= b < |p| ==> q[b] == if Changes(u, b) then u.body.before[b - u.body.off] else p[b]
  {
    if u.body.Update? then RestoreAt(p, u.body.off, u.body.before, u.body.after) else p
  }

  /** Undoing the losers' updates of a history, newest first. */
  function UndoPage(us: seq<Rec>, losers: set<int>, p: Bytes): (q: Bytes)
    ensures |q| == |p|
  {
    if us == [] then p
    else UndoPage(Front(us), losers, if Last(us).xid in losers then Unpatch(p, Last(us)) else p)
  }

  /** First update of the history by which a loser altered byte b; |us| when there is none. */
  function FirstLoser(us: seq<Rec>, losers: set<int>, b: nat): (j: nat)
    ensures j <= |us|
    ensures j < |us| ==> us[j].xid in losers && Changes(us[j], b)
    ensures forall i :: 0 <= i < j && us[i].xid in losers ==> !Changes(us[i], b)
  {
    if us == [] then 0
    else
      var j := FirstLoser(Front(us), losers, b);
      if j < |us| - 1 then j
      else if Last(us).xid in losers && Changes(Last(us), b) then |us| - 1
      else |us|
  }

  /** Each update of the history was logged against the page the earlier ones produce. */
  ghost predicate Consistent(us: seq<Rec>, ps: nat)
    requires ps >= HEADER_SIZE
  {
    forall j :: 0 <= j < |us| ==> Logged(us[..j], us[j], ps)
  }

  lemma ConsistentFront(us: seq<Rec>, ps: nat)
    requires ps >= HEADER_SIZE && us != [] && Consistent(us, ps)
    ensures Consistent(Front(us), ps) && Logged(Front(us), Last(us), ps)
  {
    forall j | 0 <= j < |us| - 1 ensures Logged(Front(us)[..j], Front(us)[j], ps) {
      assert Front(us)[..j] == us[..j] && Logged(us[..j], us[j], ps);
    }
    assert Logged(us[..|us| - 1], us[|us| - 1], ps);
  }

  lemma HistoryConsistent(log: seq<Rec>, k: PageKey, ps: nat)
    requires ps >= HEADER_SIZE && LogInv(log, ps)
    ensures Consistent(Upd(log, k), ps)
  {
    forall j | 0 <= j < |Upd(log, k)| ensures Logged(Upd(log, k)[..j], Upd(log, k)[j], ps) {
      HistoryLogged(log, k, j, ps);
    }
  }

  /** Byte by byte: an update logs the old value it alters and keeps every other byte. */
  lemma LoggedByte(us: seq<Rec>, u: Rec, b: nat, ps: nat)
    requires ps >= HEADER_SIZE && Logged(us, u, ps) && b < ps
    ensures Changes(u, b) ==> u.body.before[b - u.body.off] == Replay(us, Zeros(ps))[b]
    ensures Changes(u, b) ==> b - u.body.off < |u.body.after|
    ensures Replay(us + [u], Zeros(ps))[b]
         == if Changes(u, b) then u.body.after[b - u.body.off] else Replay(us, Zeros(ps))[b]
  {
    hide PageLsn;
    assert Front(us + [u]) == us && Last(us + [u]) == u;
    PatchedByte(Replay(us, Zeros(ps)), u, b);
  }

  lemma PatchedByte(p: Bytes, u: Rec, b: nat)
    requires u.body.Update? && |u.body.before| == |u.body.after| && u.body.off + |u.body.after| <= |p| && b < |p|
    requires u.body.before == p[u.body.off..u.body.off + |u.body.before|]
    ensures Changes(u, b) ==> u.body.before[b - u.body.off] == p[b]
    ensures Patch(p, u)[b] == if Changes(u, b) then u.body.after[b - u.body.off] else p[b]
  {
  }

  /** Undo is byte-exact: a byte gets back the value before the first loser change to it, and a
      byte no loser changed is left alone. */
  lemma {:induction false} UndoByte(us: seq<Rec>, losers: set<int>, p: Bytes, b: nat, ps: nat)
    requires ps >= HEADER_SIZE && Consistent(us, ps) && |p| == ps && b < ps
    ensures var j := FirstLoser(us, losers, b);
            UndoPage(us, losers, p)[b] == if j < |us| then Replay(us[..j], Zeros(ps))[b] else p[b]
  {
    hide Changes, Replay, Logged, Consistent, Unpatch;
    if us != [] {
      ConsistentFront(us, ps);
      var u := Last(us);
      var q := if u.xid in losers then Unpatch(p, u) else p;
      UndoByte(Front(us), losers, q, b, ps);
      LoggedByte(Front(us), u, b, ps);
      var j := FirstLoser(Front(us), losers, b);
      if j < |us| - 1 {
        assert Front(us)[..j] == us[..j];
      } else if u.xid in losers && Changes(u, b) {
        assert q[b] == Replay(Front(us), Zeros(ps))[b];
      } else {
        assert q[b] == p[b];
      }
    }
  }

  lemma UndoneByte(us: seq<Rec>, losers: set<int>, b: nat, ps: nat)
    requires ps >= HEADER_SIZE && Consistent(us, ps) && b < ps
    ensures UndoPage(us, losers, Replay(us, Zeros(ps)))[b]
         == Replay(us[..FirstLoser(us, losers, b)], Zeros(ps))[b]
  {
    UndoByte(us, losers, Replay(us, Zeros(ps)), b, ps);
    assert us[..|us|] == us;
  }

  // ---------------------------------------------------------------- winners only

  /** The page the winners alone would have made: their changed bytes, in order. */
  function WinnersOnly(us: seq<Rec>, losers: set<int>, p: Bytes): (q: Bytes)
    ensures |q| == |p|
  {
    if us == [] then p
    else
      var q := WinnersOnly(Front(us), losers, p);
      if Last(us).xid in losers then q
      else seq(|q|, b requires 0 <= b < |q| => if Changes(Last(us), b) && b - Last(us).body.off < |Last(us).body.after|
                                               then Last(us).body.after[b - Last(us).body.off] else q[b])
  }

  /** Last update by which a winner altered byte b, among those from position m on; |us| if none. */
  function LastWinner(us: seq<Rec>, losers: set<int>, b: nat, m: nat): (j: nat)
    requires m <= |us|
    ensures m <= j <= |us|
    ensures j < |us| ==> us[j].xid !in losers && Changes(us[j], b)
    ensures forall i :: m <= i < |us| && (i > j || j == |us|) && us[i].xid !in losers ==> !Changes(us[i], b)
  {
    if m == |us| then |us|
    else
      var u := us[|us| - 1];
      if u.xid !in losers && Changes(u, b) then |us| - 1
      else
        var j := LastWinner(Front(us), losers, b, m);
        if j == |us| - 1 then |us| else j
  }

  /** Before any loser touched it, a byte has the value the winners gave it. */
  lemma {:induction false} WinnersUpTo(us: seq<Rec>, losers: set<int>, b: nat, ps: nat)
    requires ps >= HEADER_SIZE && Consistent(us, ps) && b < ps
    requires forall j :: 0 <= j < |us| && us[j].xid in losers ==> !Changes(us[j], b)
    ensures WinnersOnly(us, losers, Zeros(ps))[b] == Replay(us, Zeros(ps))[b]
  {
    hide Logged, Consistent;
    if us != [] {
      ConsistentFront(us, ps);
      WinnersUpTo(Front(us), losers, b, ps);
      LoggedByte(Front(us), Last(us), b, ps);
      assert us == Front(us) + [Last(us)];
    }
  }

  /** What later updates leave of the winners' page. */
  lemma {:induction false} WinnersFrom(us: seq<Rec>, losers: set<int>, b: nat, m: nat, ps: nat)
    requires ps >= HEADER_SIZE && Consistent(us, ps) && b < ps && m <= |us|
    ensures var w := LastWinner(us, losers, b, m);
            WinnersOnly(us, losers, Zeros(ps))[b]
            == if w < |us| then NewByte(us[w], b) else WinnersOnly(us[..m], losers, Zeros(ps))[b]
  {
    hide Changes, Replay, Logged, Consistent;
    if m == |us| {
      assert us[..m] == us;
    } else {
      ConsistentFront(us, ps);
      var u := Last(us);
      LoggedByte(Front(us), u, b, ps);
      WinnersFrom(Front(us), losers, b, m, ps);
      assert Front(us)[..m] == us[..m];
      var w := LastWinner(Front(us), losers, b, m);
      if u.xid !in losers && Changes(u, b) {
        assert LastWinner(us, losers, b, m) == |us| - 1;
      } else {
        assert WinnersOnly(us, losers, Zeros(ps))[b] == WinnersOnly(Front(us), losers, Zeros(ps))[b];
        assert w < |us| - 1 ==> Front(us)[w] == us[w];
      }
    }
  }

  /** The value update u gave to byte b, and the one it logged as the old value. */
  function NewByte(u: Rec, b: nat): byte {
    if Changes(u, b) && b - u.body.off < |u.body.after| then u.body.after[b - u.body.off] else 0
  }

  function OldByte(u: Rec, b: nat): byte {
    if Changes(u, b) then u.body.before[b - u.body.off] else 0
  }

  /** No winner changed byte b after the first loser change, or the last one that did wrote the
      value the first loser had found. */
  predicate Survives(us: seq<Rec>, losers: set<int>, b: nat) {
    var f := FirstLoser(us, losers, b);
    var w := LastWinner(us, losers, b, f);
    w == |us| || NewByte(us[w], b) == OldByte(us[f], b)
  }

  /** Crash atomicity, exactly: when an undone byte is the one the winners alone would have made. */
  lemma AtomicByte(us: seq<Rec>, losers: set<int>, b: nat, ps: nat)
    requires ps >= HEADER_SIZE && Consistent(us, ps) && b < ps
    ensures UndoPage(us, losers, Replay(us, Zeros(ps)))[b] == WinnersOnly(us, losers, Zeros(ps))[b]
            <==> Survives(us, losers, b)
  {
    hide Logged, Replay, Changes, UndoPage, WinnersOnly;
    var f := FirstLoser(us, losers, b);
    UndoneByte(us, losers, b, ps);
    WinnersFrom(us, losers, b, f, ps);
    ConsistentPrefix(us, f, ps);
    WinnersUpTo(us[..f], losers, b, ps);
    if f < |us| {
      assert Logged(us[..f], us[f], ps);
      LoggedByte(us[..f], us[f], b, ps);
    }
  }

  lemma ConsistentPrefix(us: seq<Rec>, m: nat, ps: nat)
    requires ps >= HEADER_SIZE && Consistent(us, ps) && m <= |us|
    ensures Consistent(us[..m], ps)
  {
    hide Logged;
    forall j | 0 <= j < m ensures Logged(us[..m][..j], us[..m][j], ps) {
      assert us[..m][..j] == us[..j] && Logged(us[..j], us[j], ps);
    }
  }

  /** Where the losers' updates are the tail of a page's history, undo returns the earlier page
      exactly, pageLSN included. */
  lemma UndoTail(us: seq<Rec>, losers: set<int>, m: nat, ps: nat)
    requires ps >= HEADER_SIZE && Consistent(us, ps) && m <= |us|
    requires forall j :: 0 <= j < m ==> us[j].xid !in losers
    requires forall j :: m <= j < |us| ==> us[j].xid in losers
    ensures UndoPage(us, losers, Replay(us, Zeros(ps))) == Replay(us[..m], Zeros(ps))
  {
    hide Replay, Consistent, Changes, UndoPage;
    var q := UndoPage(us, losers, Replay(us, Zeros(ps)));
    forall b | 0 <= b < ps ensures q[b] == Replay(us[..m], Zeros(ps))[b] {
      UndoneByte(us, losers, b, ps);
      var f := FirstLoser(us, losers, b);
      Unchanged(us, m, f, b, ps);
    }
  }

  lemma {:induction false} Unchanged(us: seq<Rec>, m: nat, f: nat, b: nat, ps: nat)
    requires ps >= HEADER_SIZE && Consistent(us, ps) && m <= f <= |us| && b < ps
    requires forall j :: m <= j < f ==> !Changes(us[j], b)
    ensures Replay(us[..f], Zeros(ps))[b] == Replay(us[..m], Zeros(ps))[b]
    decreases f
  {
    hide Replay, Logged, Changes;
    if m < f {
      Unchanged(us, m, f - 1, b, ps);
      assert Logged(us[..f - 1], us[f - 1], ps);
      LoggedByte(us[..f - 1], us[f - 1], b, ps);
      assert us[..f] == us[..f - 1] + [us[f - 1]];
    }
  }
}
