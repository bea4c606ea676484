/** Pages as byte strings: the pageLSN in the header, and the diff/patch pair on which
    physical logging rests. */
module Pages {
  type byte = b: int | 0 <= b < 256
  type Bytes = seq<byte>

  const HEADER_SIZE: nat := 32
  const LSN_OFFSET: nat := 23
  const LSN_SIZE: nat := 8
  // LSNs are stored in eight bytes.
  const LSN_LIMIT: nat := 0x1_0000_0000_0000_0000

  function Zeros(n: nat): (p: Bytes)
    ensures |p| == n
    ensures forall i :: 0 <= i < n ==> p[i] == 0
  {
    seq(n, _ => 0)
  }

  // ---------------------------------------------------------------- little-endian integers

  function Pow256(n: nat): (r: nat)
    ensures r > 0
  {
    if n == 0 then 1 else 256 * Pow256(n - 1)
  }

  function LeBytes(v: nat, n: nat): (bs: Bytes)
    ensures |bs| == n
  {
    if n == 0 then [] else [v % 256] + LeBytes(v / 256, n - 1)
  }

  function FromLe(bs: Bytes): nat {
    if bs == [] then 0 else bs[0] + 256 * FromLe(bs[1..])
  }

  /** The lowest digit to base 256 comes first. */
  lemma {:induction false} LeBytesAt(v: nat, n: nat, i: nat)
    requires i < n
    ensures LeBytes(v, n)[i] == v / Pow256(i) % 256
  {
    if i > 0 {
      LeBytesAt(v / 256, n - 1, i - 1);
      DivTwice(v, 256, Pow256(i - 1));
    }
  }

  lemma DivTwice(v: nat, b: nat, p: nat)
    requires b > 0 && p > 0 && b * p > 0
    ensures v / b / p == v / (b * p)
  {
    var m, q := v / b, v / b / p;
    Nested(b, p, m, v - m * b, q, m - q * p);
    Quotient(v, b * p, q, v - m * b + b * (m - q * p));
  }

  lemma Nested(b: nat, p: nat, m: nat, e: nat, q: nat, r: nat)
    requires m == q * p + r && r < p && e < b
    ensures m * b + e == q * (b * p) + (e + b * r) && e + b * r < b * p
  {
    assert b * (q * p) == q * (b * p) && m * b == b * (q * p) + b * r;
    assert b * p == b * r + (p - r) * b;
    AtLeast(p - r, b);
  }

  lemma Quotient(v: nat, d: nat, q: nat, r: nat)
    requires d > 0 && v == q * d + r && r < d
    ensures v / d == q
  {
    var m := v / d - q;
    assert v == (v / d) * d + v % d;
    assert m * d == (v / d) * d - q * d == r - v % d;
    assert (-m) * d == -(m * d);
    if m > 0 {
      AtLeast(m, d);
    } else if m < 0 {
      AtLeast(-m, d);
    }
  }

  lemma {:induction false} AtLeast(m: nat, d: nat)
    requires m > 0
    ensures m * d >= d
  {
    if m > 1 {
      AtLeast(m - 1, d);
      assert m * d == (m - 1) * d + d;
    }
  }

  lemma {:induction false} LeRoundTrip(v: nat, n: nat)
    requires v < Pow256(n)
    ensures FromLe(LeBytes(v, n)) == v
  {
    if n != 0 {
      LeRoundTrip(v / 256, n - 1);
      assert LeBytes(v, n)[1..] == LeBytes(v / 256, n - 1);
    }
  }

  lemma {:induction false} FromLeBound(bs: Bytes)
    ensures FromLe(bs) < Pow256(|bs|)
  {
    if bs != [] {
      FromLeBound(bs[1..]);
    }
  }

  lemma {:induction false} FromLeZeros(bs: Bytes)
    requires forall i :: 0 <= i < |bs| ==> bs[i] == 0
    ensures FromLe(bs) == 0
  {
    if bs != [] {
      FromLeZeros(bs[1..]);
    }
  }

  // ---------------------------------------------------------------- pageLSN

  function PageLsn(p: Bytes): nat
    requires |p| >= HEADER_SIZE
  {
    FromLe(p[LSN_OFFSET..LSN_OFFSET + LSN_SIZE])
  }

  /** The page with `lsn` stored in its header. */
  function Stamp(p: Bytes, lsn: nat): (r: Bytes)
    requires |p| >= HEADER_SIZE
    ensures |r| == |p|
    ensures forall i :: 0 <= i < |p| && !(LSN_OFFSET <= i < LSN_OFFSET + LSN_SIZE) ==> r[i] == p[i]
  {
    p[..LSN_OFFSET] + LeBytes(lsn, LSN_SIZE) + p[LSN_OFFSET + LSN_SIZE..]
  }

  lemma StampedLsn(p: Bytes, lsn: nat)
    requires |p| >= HEADER_SIZE && lsn < LSN_LIMIT
    ensures PageLsn(Stamp(p, lsn)) == lsn
  {
    assert Pow256(8) == LSN_LIMIT by {
      assert Pow256(4) == 0x1_0000_0000;
    }
    assert Stamp(p, lsn)[LSN_OFFSET..LSN_OFFSET + LSN_SIZE] == LeBytes(lsn, LSN_SIZE);
    LeRoundTrip(lsn, LSN_SIZE);
  }

  lemma ZeroPageLsn(n: nat)
    requires n >= HEADER_SIZE
    ensures PageLsn(Zeros(n)) == 0
  {
    FromLeZeros(Zeros(n)[LSN_OFFSET..LSN_OFFSET + LSN_SIZE]);
  }

  // ---------------------------------------------------------------- diff and patch

  /** The page `p` with `after` written at offset `off`. */
  function PatchAt(p: Bytes, off: nat, after: Bytes): (r: Bytes)
    ensures |r| == |p|
    ensures forall i :: 0 <= i < |p| ==> r[i] == if off <= i < off + |after| then after[i - off] else p[i]
  {
    seq(|p|, i requires 0 <= i < |p| => if off <= i < off + |after| then after[i - off] else p[i])
  }

  /** The byte at offset i of a window is one the logged change really altered. */
  predicate Differs(before: Bytes, after: Bytes, i: nat) {
    i < |before| && (i >= |after| || before[i] != after[i])
  }

  /** Undo's patch: only the bytes the change altered get their before-value back. */
  function RestoreAt(p: Bytes, off: nat, before: Bytes, after: Bytes): (r: Bytes)
    ensures |r| == |p|
    ensures forall i :: 0 <= i < |p| ==>
      r[i] == if off <= i < off + |before| && Differs(before, after, i - off) then before[i - off] else p[i]
  {
    seq(|p|, i requires 0 <= i < |p| =>
      if off <= i < off + |before| && Differs(before, after, i - off) then before[i - off] else p[i])
  }

  function Min(x: nat, y: nat): nat { if x < y then x else y }
  function Max(x: nat, y: nat): nat { if x < y then y else x }

  function FirstDiff(a: Bytes, b: Bytes, lo: nat): (r: nat)
    requires lo <= |a| && lo <= |b|
    ensures lo <= r <= Min(|a|, |b|)
    ensures forall i :: lo <= i < r ==> a[i] == b[i]
    ensures r < Min(|a|, |b|) ==> a[r] != b[r]
    decreases |a| - lo
  {
    if lo < Min(|a|, |b|) && a[lo] == b[lo] then FirstDiff(a, b, lo + 1) else lo
  }

  function LastDiff(a: Bytes, b: Bytes, lo: nat, hi: nat): (r: nat)
    requires lo <= hi
    ensures lo <= r <= hi
    ensures hi <= |a| && hi <= |b| ==>
      (forall i :: r <= i < hi ==> a[i] == b[i]) && (r > lo ==> a[r - 1] != b[r - 1])
    ensures hi > Min(|a|, |b|) ==> r == hi
    decreases hi
  {
    if hi > lo && hi <= Min(|a|, |b|) && a[hi - 1] == b[hi - 1] then LastDiff(a, b, lo, hi - 1) else hi
  }

  datatype Option<+T> = None | Some(value: T)

  /** The window [lo, hi) of `_diff_range`, or None for equal strings. */
  function DiffRange(a: Bytes, b: Bytes): (r: Option<(nat, nat)>)
    ensures r.None? <==> a == b
    ensures r.Some? ==>
      var (lo, hi) := r.value;
      && lo <= hi <= Max(|a|, |b|)
      && a[..Min(lo, |a|)] == b[..Min(lo, |b|)]
  {
    var lo := FirstDiff(a, b, 0);
    if lo == Min(|a|, |b|) && |a| == |b| then None
    else Some((lo, LastDiff(a, b, lo, Max(|a|, |b|))))
  }

  /** Tightest window, and patching the before-image with it gives the after-image. */
  lemma DiffWindow(a: Bytes, b: Bytes)
    requires |a| == |b| && a != b
    ensures
      var (lo, hi) := DiffRange(a, b).value;
      && lo < hi <= |a|
      && a[lo] != b[lo] && a[hi - 1] != b[hi - 1]
      && (forall i :: 0 <= i < |a| && a[i] != b[i] ==> lo <= i < hi)
      && PatchAt(a, lo, b[lo..hi]) == b
      && RestoreAt(b, lo, a[lo..hi], b[lo..hi]) == a
  {
    var (lo, hi) := DiffRange(a, b).value;
    assert lo < |a|;
    assert hi > lo;
    assert forall i :: 0 <= i < |a| && a[i] != b[i] ==> lo <= i < hi;
  }

  /** `_diff_range` as the two scanning loops of the source. */
  method ComputeDiffRange(a: Bytes, b: Bytes) returns (r: Option<(nat, nat)>)
    ensures r == DiffRange(a, b)
  {
    var n := Min(|a|, |b|);
    var lo := 0;
    while lo < n && a[lo] == b[lo]
      invariant 0 <= lo <= n
      invariant FirstDiff(a, b, lo) == FirstDiff(a, b, 0)
    {
      lo := lo + 1;
    }
    if lo == n && |a| == |b| {
      return None;
    }
    var hi := Max(|a|, |b|);
    while hi > lo && hi <= n && a[hi - 1] == b[hi - 1]
      invariant lo <= hi <= Max(|a|, |b|)
      invariant LastDiff(a, b, lo, hi) == LastDiff(a, b, lo, Max(|a|, |b|))
    {
      hi := hi - 1;
    }
    return Some((lo, hi));
  }
}
