/** Deletion, whole-tree insertion, and the shape of every reachable B+ tree: one leaf depth,
    fanout limits and the height bound. */
module BTreeShape {
  import opened Pages
  import opened Entries
  import opened BTree

  // ---------------------------------------------------------------- lazy deletion

  /** The leaf loses the key; nothing is rebalanced. */
  function DeleteT(t: Tree, k: int): (r: Tree)
    requires Formed(t)
    ensures Formed(r) && r.TLeaf? == t.TLeaf? && r.pid == t.pid
    decreases t
  {
    match t
    case TLeaf(pid, keys, vals) =>
      var i := BisectLeft(keys, k);
      if i < |keys| && keys[i] == k then TLeaf(pid, keys[..i] + keys[i + 1..], vals[..i] + vals[i + 1..]) else t
    case TNode(pid, keys, kids) =>
      var i := BisectRight(keys, k);
      TNode(pid, keys, kids[i := DeleteT(kids[i], k)])
  }

  lemma {:induction false} DeleteCorrect(t: Tree, lo: Bound, hi: Bound, k: int)
    requires Ordered(t, lo, hi) && Within(lo, k, hi) && Formed(t)
    ensures Ordered(DeleteT(t, k), lo, hi) && EntriesOf(DeleteT(t, k)) == Remove(EntriesOf(t), k)
    decreases t
  {
    match t
    case TLeaf(_, _, _) => DeleteLeafCorrect(t, lo, hi, k);
    case TNode(_, keys, kids) =>
      hide Remove, Lookup, Insert, EntriesOf, Flat, Ordered;
      Route(t, lo, hi, k);
      var i := BisectRight(keys, k);
      Local(Flat(kids[..i]), EntriesOf(kids[i]), Flat(kids[i + 1..]), k, Ptr(0, 0));
      UnpackNode(t, lo, hi);
      DeleteCorrect(kids[i], Lo(lo, keys, i), Hi(hi, keys, i), k);
      KidReplaced(t, lo, hi, i, DeleteT(kids[i], k));
  }

  lemma DeleteLeafCorrect(t: Tree, lo: Bound, hi: Bound, k: int)
    requires t.TLeaf? && Ordered(t, lo, hi) && Formed(t)
    ensures Ordered(DeleteT(t, k), lo, hi) && EntriesOf(DeleteT(t, k)) == Remove(EntriesOf(t), k)
  {
    hide Remove, Lookup, Insert;
    LeafFind(t.keys, t.vals, k);
  }

  lemma KidReplaced(t: Tree, lo: Bound, hi: Bound, i: nat, kid: Tree)
    requires t.TNode? && Ordered(t, lo, hi) && Formed(t) && i < |t.kids| && i <= |t.keys|
    requires Ordered(kid, Lo(lo, t.keys, i), Hi(hi, t.keys, i)) && Formed(kid)
    ensures var t1 := TNode(t.pid, t.keys, t.kids[i := kid]);
            && Formed(t1) && Ordered(t1, lo, hi)
            && EntriesOf(t1) == Flat(t.kids[..i]) + EntriesOf(kid) + Flat(t.kids[i + 1..])
  {
    hide Ordered, EntriesOf, Flat;
    var t1 := TNode(t.pid, t.keys, t.kids[i := kid]);
    ReplaceKidOrdered(t, lo, hi, i, kid);
    FlatReplace(t.kids, i, [kid]);
    FlatOne(kid);
    assert t1.kids == t.kids[..i] + [kid] + t.kids[i + 1..];
    EntriesOfNode(t1);
  }

  lemma {:induction false} DeleteShape(t: Tree, k: int, h: nat, m: nat, root: bool)
    requires Formed(t) && Shape(t, h, m, root)
    ensures Shape(DeleteT(t, k), h, m, root) && Leaves(DeleteT(t, k)) == Leaves(t)
    decreases t
  {
    hide Leaves, BisectRight;
    if t.TNode? {
      var i := BisectRight(t.keys, k);
      var kid := DeleteT(t.kids[i], k);
      DeleteShape(t.kids[i], k, h - 1, m, false);
      ShapeReplaced(t, i, kid, h, m, root);
      LeavesReplaced(t, i, kid);
    } else {
      OneLeaf();
    }
  }

  lemma ShapeReplaced(t: Tree, i: nat, kid: Tree, h: nat, m: nat, root: bool)
    requires t.TNode? && Shape(t, h, m, root) && i < |t.kids| && h > 1 && Shape(kid, h - 1, m, false)
    ensures Shape(TNode(t.pid, t.keys, t.kids[i := kid]), h, m, root)
  {
  }

  lemma LeavesReplaced(t: Tree, i: nat, kid: Tree)
    requires t.TNode? && i < |t.kids| && Leaves(kid) == Leaves(t.kids[i])
    ensures Leaves(TNode(t.pid, t.keys, t.kids[i := kid])) == Leaves(t)
  {
    var kids := t.kids;
    SumReplace(kids, i, [kid]);
    assert kids[i := kid] == kids[..i] + [kid] + kids[i + 1..];
    SumSplit(kids, i);
    SumOne(kid);
  }

  // ---------------------------------------------------------------- counting leaves

  function Leaves(t: Tree): (n: nat)
    ensures t.TLeaf? ==> n == 1
    decreases t, 0
  {
    if t.TLeaf? then 1 else SumLeaves(t.kids)
  }

  function SumLeaves(kids: seq<Tree>): nat
    decreases kids, 0
  {
    if kids == [] then 0 else Leaves(kids[0]) + SumLeaves(kids[1..])
  }

  lemma {:induction false} SumConcat(a: seq<Tree>, b: seq<Tree>)
    ensures SumLeaves(a + b) == SumLeaves(a) + SumLeaves(b)
  {
    if a == [] {
      assert a + b == b;
    } else {
      assert (a + b)[1..] == a[1..] + b;
      SumConcat(a[1..], b);
    }
  }

  lemma SumOne(t: Tree)
    ensures SumLeaves([t]) == Leaves(t)
  {
    assert SumLeaves([t]) == Leaves(t) + SumLeaves([]);
  }

  lemma SumSplit(kids: seq<Tree>, i: nat)
    requires i < |kids|
    ensures SumLeaves(kids) == SumLeaves(kids[..i]) + Leaves(kids[i]) + SumLeaves(kids[i + 1..])
  {
    assert kids == kids[..i] + kids[i..];
    SumConcat(kids[..i], kids[i..]);
    assert kids[i..][1..] == kids[i + 1..];
  }

  lemma SumReplace(kids: seq<Tree>, i: nat, parts: seq<Tree>)
    requires i < |kids| && 1 <= |parts| <= 2
    ensures SumLeaves(kids[..i] + parts + kids[i + 1..])
         == SumLeaves(kids[..i]) + (Leaves(parts[0]) + if |parts| == 2 then Leaves(parts[1]) else 0) + SumLeaves(kids[i + 1..])
  {
    SumConcat(kids[..i] + parts, kids[i + 1..]);
    SumConcat(kids[..i], parts);
    SumOne(parts[0]);
    if |parts| == 2 {
      SumOne(parts[1]);
      SumConcat([parts[0]], [parts[1]]);
      assert parts == [parts[0]] + [parts[1]];
    } else {
      assert parts == [parts[0]];
    }
  }

  // ---------------------------------------------------------------- insertion keeps the shape

  ghost predicate InsShape(r: Ins, h: nat, m: nat, root: bool) {
    match r
    case One(t) => Shape(t, h, m, root)
    case Two(l, _, rt) => Shape(l, h, m, false) && Shape(rt, h, m, false)
  }

  function InsLeaves(r: Ins): nat {
    match r case One(t) => Leaves(t) case Two(l, _, rt) => Leaves(l) + Leaves(rt)
  }

  lemma SplitShape(t: Tree, h: nat, m: nat, next: nat)
    requires t.TNode? && |t.kids| == |t.keys| + 1 && |t.keys| == m + 1 && m >= 2 && h > 1
    requires forall i :: 0 <= i < |t.kids| ==> Shape(t.kids[i], h - 1, m, false)
    ensures InsShape(SplitNode(t.pid, t.keys, t.kids, next), h, m, false)
    ensures InsLeaves(SplitNode(t.pid, t.keys, t.kids, next)) == SumLeaves(t.kids)
  {
    var mid := |t.keys| / 2;
    assert t.kids == t.kids[..mid + 1] + t.kids[mid + 1..];
    SumConcat(t.kids[..mid + 1], t.kids[mid + 1..]);
  }

  /** Insertion keeps leaf depth and fanout, and adds at most one leaf. */
  lemma {:induction false} InsertShape(t: Tree, k: int, p: Ptr, next: nat, h: nat, m: nat, root: bool)
    requires Formed(t) && Shape(t, h, m, root) && m >= 2
    ensures var r := InsertT(t, k, p, next, m).0;
            && InsShape(r, h, m, root) && Leaves(t) <= InsLeaves(r) <= Leaves(t) + 1
    decreases t
  {
    hide Leaves, SumLeaves;
    match t
    case TLeaf(_, _, _) =>
      LeafPid(t, k, p);
      OneLeaf();
    case TNode(_, keys, kids) =>
      var i := BisectRight(keys, k);
      InsertShape(kids[i], k, p, next, h - 1, m, false);
      var (r, next1) := InsertT(kids[i], k, p, next, m);
      InsertUpShape(t, i, r, next1, h, m, root);
      NodeLeaves(t);
      SumSplit(kids, i);
  }

  lemma OneLeaf()
    ensures forall t: Tree :: t.TLeaf? ==> Leaves(t) == 1
  {
  }

  lemma NodeLeaves(t: Tree)
    requires t.TNode?
    ensures Leaves(t) == SumLeaves(t.kids)
  {
  }

  lemma InsertUpShape(t: Tree, i: nat, r: Ins, next: nat, h: nat, m: nat, root: bool)
    requires t.TNode? && Shape(t, h, m, root) && |t.kids| == |t.keys| + 1 && i < |t.kids| && m >= 2
    requires InsShape(r, h - 1, m, false)
    ensures var u := InsertUp(t, i, r, next, m);
            && InsShape(u, h, m, root)
            && InsLeaves(u) == SumLeaves(t.kids[..i]) + InsLeaves(r) + SumLeaves(t.kids[i + 1..])
  {
    hide Leaves, SumLeaves;
    match r
    case One(kid) =>
      assert t.kids[i := kid] == t.kids[..i] + [kid] + t.kids[i + 1..];
      SumReplace(t.kids, i, [kid]);
      NodeLeaves(TNode(t.pid, t.keys, t.kids[i := kid]));
    case Two(l, sep, rt) =>
      var t1 := InsertKid(t, i, r);
      SumReplace(t.kids, i, [l, rt]);
      NodeLeaves(t1);
      forall j | 0 <= j < |t1.kids| ensures Shape(t1.kids[j], h - 1, m, false) {
        if j < i {
          assert t1.kids[j] == t.kids[j];
        } else if j > i + 1 {
          assert t1.kids[j] == t.kids[j - 1];
        }
      }
      if |t1.keys| > m {
        SplitShape(t1, h, m, next);
      }
  }

  // ---------------------------------------------------------------- height bound

  function Pow(b: nat, e: nat): nat {
    if e == 0 then 1 else b * Pow(b, e - 1)
  }

  lemma {:induction false} SumAtLeast(kids: seq<Tree>, c: nat)
    requires forall i :: 0 <= i < |kids| ==> Leaves(kids[i]) >= c
    ensures SumLeaves(kids) >= |kids| * c
  {
    if kids != [] {
      SumAtLeast(kids[1..], c);
      assert |kids| * c == (|kids| - 1) * c + c;
    }
  }

  lemma MulAtLeast(x: nat, y: nat, c: nat)
    requires x >= y
    ensures x * c >= y * c
  {
    assert x * c == y * c + (x - y) * c;
  }

  lemma {:induction false} InnerLeaves(t: Tree, h: nat, m: nat)
    requires Shape(t, h, m, false)
    ensures h >= 1 && Leaves(t) >= Pow(m / 2 + 1, h - 1)
  {
    if t.TNode? {
      var c := Pow(m / 2 + 1, h - 2);
      forall i | 0 <= i < |t.kids| ensures Leaves(t.kids[i]) >= c {
        InnerLeaves(t.kids[i], h - 1, m);
      }
      SumAtLeast(t.kids, c);
      MulAtLeast(|t.kids|, m / 2 + 1, c);
    }
  }

  /** A search that visits h >= 2 nodes needs at least 2 * (m / 2 + 1)^(h - 2) leaves. */
  lemma HeightNeedsLeaves(t: Tree, h: nat, m: nat)
    requires Shape(t, h, m, true) && h >= 2
    ensures Leaves(t) >= 2 * Pow(m / 2 + 1, h - 2)
  {
    var c := Pow(m / 2 + 1, h - 2);
    forall i | 0 <= i < |t.kids| ensures Leaves(t.kids[i]) >= c {
      InnerLeaves(t.kids[i], h - 1, m);
    }
    SumAtLeast(t.kids, c);
    MulAtLeast(|t.kids|, 2, c);
  }

  // ---------------------------------------------------------------- reachable trees

  /** `insert`: a root split puts a new root over the two halves. */
  function InsertRoot(t: Tree, k: int, p: Ptr, next: nat, m: nat): (Tree, nat)
    requires Formed(t) && m >= 1
  {
    var (r, next1) := InsertT(t, k, p, next, m);
    match r
    case One(t1) => (t1, next1)
    case Two(l, sep, rt) => (TNode(next1, [sep], [l, rt]), next1 + 1)
  }

  /** What holds of every tree that inserts of absent keys and deletes can build. */
  ghost predicate TreeInv(t: Tree, h: nat, m: nat) {
    && m >= 2 && h >= 1 && Formed(t)
    && Ordered(t, None, None) && Shape(t, h, m, true)
  }

  lemma InsertRootInv(t: Tree, k: int, p: Ptr, next: nat, h: nat, m: nat)
    requires TreeInv(t, h, m) && Lookup(EntriesOf(t), k) == None
    ensures var t1 := InsertRoot(t, k, p, next, m).0;
            && (TreeInv(t1, h, m) || TreeInv(t1, h + 1, m))
            && EntriesOf(t1) == Insert(EntriesOf(t), k, p) && Leaves(t1) <= Leaves(t) + 1
  {
    hide Ordered, Shape, Insert, Lookup, EntriesOf, Leaves, SumLeaves;
    InsertCorrect(t, None, None, k, p, next, m);
    InsertShape(t, k, p, next, h, m, true);
    var (r, next1) := InsertT(t, k, p, next, m);
    if r.Two? {
      NewRoot(r.left, r.sep, r.right, next1, h, m);
    }
  }

  lemma NewRoot(l: Tree, sep: int, r: Tree, pid: nat, h: nat, m: nat)
    requires Ordered(l, None, Some(sep)) && Ordered(r, Some(sep), None) && Formed(l) && Formed(r)
    requires Shape(l, h, m, false) && Shape(r, h, m, false) && m >= 2 && h >= 1
    ensures var t := TNode(pid, [sep], [l, r]);
            TreeInv(t, h + 1, m) && EntriesOf(t) == EntriesOf(l) + EntriesOf(r) && Leaves(t) == Leaves(l) + Leaves(r)
  {
    var t := TNode(pid, [sep], [l, r]);
    PackNode(pid, [sep], [l, r], None, None);
    FlatTwo(l, r);
    SumOne(l);
    SumOne(r);
    SumConcat([l], [r]);
    assert [l, r] == [l] + [r];
  }

  lemma DeleteInv(t: Tree, k: int, h: nat, m: nat)
    requires TreeInv(t, h, m)
    ensures TreeInv(DeleteT(t, k), h, m) && EntriesOf(DeleteT(t, k)) == Remove(EntriesOf(t), k)
    ensures Leaves(DeleteT(t, k)) == Leaves(t)
  {
    DeleteCorrect(t, None, None, k);
    DeleteShape(t, k, h, m, true);
  }

  /** Runs: inserts that the duplicate check lets through, and deletes of any key. */
  datatype TreeOp = Put(k: int, p: Ptr) | Drop(k: int)

  datatype State = State(t: Tree, next: nat, puts: nat)

  function Start(): State {
    State(TLeaf(0, [], []), 1, 0)
  }

  function TreeStep(s: State, op: TreeOp, m: nat): State
    requires Formed(s.t) && m >= 1
  {
    match op
    case Put(k, p) =>
      if Lookup(EntriesOf(s.t), k).Some? then s
      else
        var (t, next) := InsertRoot(s.t, k, p, s.next, m);
        State(t, next, s.puts + 1)
    case Drop(k) => s.(t := DeleteT(s.t, k))
  }

  /** The map such a run should hold. */
  function MapRun(ops: seq<TreeOp>): map<int, Ptr> {
    if ops == [] then map[] else MapStep(MapRun(ops[..|ops| - 1]), ops[|ops| - 1])
  }

  ghost predicate Reaches(ops: seq<TreeOp>, s: State, m: nat)
    requires m >= 1
  {
    if ops == [] then s == Start()
    else exists s1 :: Reaches(ops[..|ops| - 1], s1, m) && Formed(s1.t) && s == TreeStep(s1, ops[|ops| - 1], m)
  }

  function MapStep(mp: map<int, Ptr>, op: TreeOp): map<int, Ptr> {
    match op
    case Put(k, p) => if k in mp then mp else mp[k := p]
    case Drop(k) => mp - {k}
  }

  lemma StepInv(s: State, op: TreeOp, h: nat, m: nat) returns (h1: nat)
    requires TreeInv(s.t, h, m) && Leaves(s.t) <= s.puts + 1
    ensures var s1 := TreeStep(s, op, m);
            && TreeInv(s1.t, h1, m) && Leaves(s1.t) <= s1.puts + 1
            && MapOf(EntriesOf(s1.t)) == MapStep(MapOf(EntriesOf(s.t)), op)
  {
    hide Ordered, Shape, Insert, Remove, Lookup, EntriesOf, MapOf, Leaves, InsertRoot, DeleteT;
    var es := EntriesOf(s.t);
    h1 := h;
    match op
    case Put(k, p) =>
      LookupIsMap(es, k);
      if Lookup(es, k) == None {
        InsertRootInv(s.t, k, p, s.next, h, m);
        InsertIsMap(es, k, p);
        if !TreeInv(TreeStep(s, op, m).t, h, m) {
          h1 := h + 1;
        }
      }
    case Drop(k) =>
      TreeSorted(s.t, None, None);
      DeleteInv(s.t, k, h, m);
      RemoveIsMap(es, k);
  }

  /** Every reachable tree is a B+ tree for the map of its run, and its height is logarithmic in the
      number of inserts performed. */
  lemma {:induction false} ReachableTree(ops: seq<TreeOp>, s: State, m: nat) returns (h: nat)
    requires m >= 2 && Reaches(ops, s, m)
    ensures TreeInv(s.t, h, m) && MapOf(EntriesOf(s.t)) == MapRun(ops) && Leaves(s.t) <= s.puts + 1
    ensures h >= 2 ==> 2 * Pow(m / 2 + 1, h - 2) <= s.puts + 1
  {
    if ops == [] {
      h := 1;
    } else {
      var s1 :| Reaches(ops[..|ops| - 1], s1, m) && Formed(s1.t) && s == TreeStep(s1, ops[|ops| - 1], m);
      var h1 := ReachableTree(ops[..|ops| - 1], s1, m);
      h := StepInv(s1, ops[|ops| - 1], h1, m);
    }
    if h >= 2 {
      HeightNeedsLeaves(s.t, h, m);
    }
  }
}
