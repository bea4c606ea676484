/** The B+ tree as a value: insertion with leaf, internal and root splits, lazy deletion and
    lookup, with what they do to the entries, the order and the shape. */
module BTree {
  import opened Pages
  import opened Entries

  /** A subtree with the page ids of its nodes. */
  datatype Tree =
    | TLeaf(pid: nat, keys: seq<int>, vals: seq<Ptr>)
    | TNode(pid: nat, keys: seq<int>, kids: seq<Tree>)

  /** All entries, left to right. */
  function EntriesOf(t: Tree): seq<Entry>
    requires Formed(t)
    decreases t, 0
  {
    match t
    case TLeaf(_, keys, vals) => Zip(keys, vals)
    case TNode(_, _, kids) => Flat(kids)
  }

  function Flat(kids: seq<Tree>): seq<Entry>
    requires forall i :: 0 <= i < |kids| ==> Formed(kids[i])
    decreases kids, 0
  {
    if kids == [] then [] else EntriesOf(kids[0]) + Flat(kids[1..])
  }

  /** Leaves have a value per key, inner nodes one child more than keys. */
  predicate Formed(t: Tree) {
    match t
    case TLeaf(_, keys, vals) => |keys| == |vals|
    case TNode(_, keys, kids) => |kids| == |keys| + 1 && forall i :: 0 <= i < |kids| ==> Formed(kids[i])
  }

  type Bound = Option<int>

  predicate Within(lo: Bound, k: int, hi: Bound) {
    (lo.None? || lo.value <= k) && (hi.None? || k < hi.value)
  }

  function Lo(lo: Bound, keys: seq<int>, i: nat): Bound
    requires i <= |keys|
  {
    if i == 0 then lo else Some(keys[i - 1])
  }

  function Hi(hi: Bound, keys: seq<int>, i: nat): Bound
    requires i <= |keys|
  {
    if i == |keys| then hi else Some(keys[i])
  }

  /** Separators bound their subtrees: child i holds keys from separator i - 1 up to separator i. */
  predicate Ordered(t: Tree, lo: Bound, hi: Bound) {
    match t
    case TLeaf(_, keys, vals) =>
      |keys| == |vals| && Increasing(keys) && forall i :: 0 <= i < |keys| ==> Within(lo, keys[i], hi)
    case TNode(_, keys, kids) =>
      && |kids| == |keys| + 1 && Increasing(keys)
      && (forall i :: 0 <= i < |keys| ==> Within(lo, keys[i], hi))
      && forall i :: 0 <= i < |kids| ==> Ordered(kids[i], Lo(lo, keys, i), Hi(hi, keys, i))
  }

  /** All leaves at one depth, at most m keys in a node, at least m / 2 in an inner node other
      than the root. */
  predicate Shape(t: Tree, h: nat, m: nat, root: bool) {
    match t
    case TLeaf(_, keys, _) => h == 1 && |keys| <= m
    case TNode(_, keys, kids) =>
      && h > 1 && (if root then 1 else m / 2) <= |keys| <= m
      && |kids| == |keys| + 1
      && forall i :: 0 <= i < |kids| ==> Shape(kids[i], h - 1, m, false)
  }

  lemma {:induction false} OrderedFormed(t: Tree, lo: Bound, hi: Bound)
    requires Ordered(t, lo, hi)
    ensures Formed(t)
  {
    if t.TNode? {
      forall i | 0 <= i < |t.kids| ensures Formed(t.kids[i]) {
        OrderedFormed(t.kids[i], Lo(lo, t.keys, i), Hi(hi, t.keys, i));
      }
    }
  }

  // ---------------------------------------------------------------- concatenation

  predicate AllFormed(kids: seq<Tree>) {
    forall i :: 0 <= i < |kids| ==> Formed(kids[i])
  }

  lemma SomeKids(kids: seq<Tree>, m: nat)
    requires m <= |kids| && AllFormed(kids)
    ensures AllFormed(kids[..m]) && AllFormed(kids[m..])
  {
    hide Formed;
  }

  lemma {:induction false} FlatConcat(a: seq<Tree>, b: seq<Tree>)
    requires forall i :: 0 <= i < |a| ==> Formed(a[i])
    requires forall i :: 0 <= i < |b| ==> Formed(b[i])
    ensures Flat(a + b) == Flat(a) + Flat(b)
  {
    if a == [] {
      assert a + b == b;
    } else {
      assert (a + b)[1..] == a[1..] + b && (a + b)[0] == a[0];
      FlatConcat(a[1..], b);
    }
  }

  /** The entries left of, in, and right of child i. */
  lemma FlatSplit(kids: seq<Tree>, i: nat)
    requires i < |kids| && forall j :: 0 <= j < |kids| ==> Formed(kids[j])
    ensures Flat(kids) == Flat(kids[..i]) + EntriesOf(kids[i]) + Flat(kids[i + 1..])
  {
    hide Formed, EntriesOf, Flat;
    var rest := kids[i..];
    assert kids == kids[..i] + rest && rest[0] == kids[i] && rest[1..] == kids[i + 1..];
    FlatConcat(kids[..i], rest);
    FlatHead(rest);
    Regroup(Flat(kids[..i]), EntriesOf(kids[i]), Flat(kids[i + 1..]));
  }

  lemma FlatHead(kids: seq<Tree>)
    requires kids != [] && AllFormed(kids)
    ensures Flat(kids) == EntriesOf(kids[0]) + Flat(kids[1..])
  {
    hide Formed, EntriesOf;
  }

  lemma FlatSnoc(kids: seq<Tree>, j: nat)
    requires 0 < j <= |kids| && AllFormed(kids)
    ensures Flat(kids[..j]) == Flat(kids[..j - 1]) + EntriesOf(kids[j - 1])
  {
    hide Formed, EntriesOf, Flat;
    assert kids[..j] == kids[..j - 1] + [kids[j - 1]];
    FlatConcat(kids[..j - 1], [kids[j - 1]]);
    FlatOne(kids[j - 1]);
  }

  lemma Regroup(a: seq<Entry>, b: seq<Entry>, c: seq<Entry>)
    ensures a + (b + c) == a + b + c
  {
  }

  lemma FlatReplace(kids: seq<Tree>, i: nat, parts: seq<Tree>)
    requires i < |kids| && (forall j :: 0 <= j < |kids| ==> Formed(kids[j])) && forall j :: 0 <= j < |parts| ==> Formed(parts[j])
    ensures Flat(kids[..i] + parts + kids[i + 1..]) == Flat(kids[..i]) + Flat(parts) + Flat(kids[i + 1..])
  {
    FlatConcat(kids[..i] + parts, kids[i + 1..]);
    FlatConcat(kids[..i], parts);
  }

  // ---------------------------------------------------------------- order of the entries

  predicate EntriesWithin(es: seq<Entry>, lo: Bound, hi: Bound) {
    forall i :: 0 <= i < |es| ==> Within(lo, es[i].key, hi)
  }

  /** Entries of a tree are sorted and within its bounds. */
  lemma {:induction false} TreeSorted(t: Tree, lo: Bound, hi: Bound)
    requires Ordered(t, lo, hi)
    ensures Formed(t) && Sorted(EntriesOf(t)) && EntriesWithin(EntriesOf(t), lo, hi)
    decreases t, 1
  {
    OrderedFormed(t, lo, hi);
    if t.TNode? {
      KidsSorted(t, lo, hi, 0);
    }
  }

  /** The entries of the children from j on, sorted and not below the separator before child j. */
  lemma {:induction false} KidsSorted(t: Tree, lo: Bound, hi: Bound, j: nat)
    requires t.TNode? && Ordered(t, lo, hi) && j <= |t.kids|
    ensures Formed(t) && Sorted(Flat(t.kids[j..]))
    ensures j < |t.kids| ==> EntriesWithin(Flat(t.kids[j..]), Lo(lo, t.keys, j), hi)
    decreases t, 0, |t.kids| - j
  {
    OrderedFormed(t, lo, hi);
    if j < |t.kids| {
      TreeSorted(t.kids[j], Lo(lo, t.keys, j), Hi(hi, t.keys, j));
      KidsSorted(t, lo, hi, j + 1);
      assert t.kids[j..][1..] == t.kids[j + 1..];
    }
  }

  /** The entries of the children before child j are below separator j - 1. */
  lemma {:induction false} KidsBelow(t: Tree, lo: Bound, hi: Bound, j: nat)
    requires t.TNode? && Ordered(t, lo, hi) && 0 < j <= |t.keys|
    ensures Formed(t) && AllBelow(Flat(t.kids[..j]), t.keys[j - 1])
  {
    hide Flat, EntriesOf, Ordered, AllBelow;
    OrderedFormed(t, lo, hi);
    UnpackNode(t, lo, hi);
    TreeSorted(t.kids[j - 1], Lo(lo, t.keys, j - 1), Hi(hi, t.keys, j - 1));
    FlatSnoc(t.kids, j);
    WithinBelow(EntriesOf(t.kids[j - 1]), Lo(lo, t.keys, j - 1), t.keys[j - 1]);
    if j > 1 {
      KidsBelow(t, lo, hi, j - 1);
      BelowConcat(Flat(t.kids[..j - 1]), EntriesOf(t.kids[j - 1]), t.keys[j - 2], t.keys[j - 1]);
    } else {
      FlatNothing();
      BelowConcat([], EntriesOf(t.kids[0]), t.keys[0], t.keys[0]) by {
        assert AllBelow([], t.keys[0]) by {
          NothingBelow(t.keys[0]);
        }
      }
    }
  }

  lemma FlatNothing()
    ensures Flat([]) == []
  {
  }

  lemma NothingBelow(k: int)
    ensures AllBelow([], k) && AllAbove([], k)
  {
  }

  lemma WithinBelow(es: seq<Entry>, lo: Bound, k: int)
    requires EntriesWithin(es, lo, Some(k))
    ensures AllBelow(es, k)
  {
  }

  lemma BelowConcat(a: seq<Entry>, b: seq<Entry>, k: int, k': int)
    requires AllBelow(a, k) && AllBelow(b, k') && k <= k'
    ensures AllBelow(a + b, k')
  {
  }

  /** Child `i` of the search path is the only one that can hold key k. */
  lemma Route(t: Tree, lo: Bound, hi: Bound, k: int)
    requires t.TNode? && Ordered(t, lo, hi) && Within(lo, k, hi)
    ensures var i := BisectRight(t.keys, k);
            && Formed(t) && i < |t.kids| && Within(Lo(lo, t.keys, i), k, Hi(hi, t.keys, i))
            && AllBelow(Flat(t.kids[..i]), k) && AllAbove(Flat(t.kids[i + 1..]), k)
            && EntriesOf(t) == Flat(t.kids[..i]) + EntriesOf(t.kids[i]) + Flat(t.kids[i + 1..])
  {
    hide Flat, EntriesOf, Ordered, AllBelow, AllAbove, BisectRight;
    var i := BisectRight(t.keys, k);
    OrderedFormed(t, lo, hi);
    UnpackNode(t, lo, hi);
    FlatSplit(t.kids, i);
    EntriesOfNode(t);
    LeftOfRoute(t, lo, hi, k, i);
    RightOfRoute(t, lo, hi, k, i);
  }

  lemma LeftOfRoute(t: Tree, lo: Bound, hi: Bound, k: int, i: nat)
    requires t.TNode? && Ordered(t, lo, hi) && Formed(t) && i < |t.kids| && (i > 0 ==> t.keys[i - 1] <= k)
    ensures AllBelow(Flat(t.kids[..i]), k)
  {
    hide Flat, Ordered, AllBelow;
    if i > 0 {
      KidsBelow(t, lo, hi, i);
      FlatNothing();
      NothingBelow(k);
      BelowConcat(Flat(t.kids[..i]), [], t.keys[i - 1], k);
      assert Flat(t.kids[..i]) + [] == Flat(t.kids[..i]);
    } else {
      assert t.kids[..0] == [];
      FlatNothing();
      NothingBelow(k);
    }
  }

  lemma RightOfRoute(t: Tree, lo: Bound, hi: Bound, k: int, i: nat)
    requires t.TNode? && Ordered(t, lo, hi) && Formed(t) && i < |t.kids| && (i < |t.keys| ==> k < t.keys[i])
    ensures AllAbove(Flat(t.kids[i + 1..]), k)
  {
    hide Flat, Ordered, AllAbove;
    KidsSorted(t, lo, hi, i + 1);
    if i + 1 == |t.kids| {
      assert t.kids[i + 1..] == [];
      FlatNothing();
      NothingBelow(k);
    } else {
      WithinAbove(Flat(t.kids[i + 1..]), t.keys[i], hi, k);
    }
  }

  lemma WithinAbove(es: seq<Entry>, low: int, hi: Bound, k: int)
    requires EntriesWithin(es, Some(low), hi) && k < low
    ensures AllAbove(es, k)
  {
  }

  // ---------------------------------------------------------------- lookup

  /** The leaf a search for key k ends in. */
  function LeafFor(t: Tree, k: int): (l: Tree)
    requires Formed(t)
    ensures l.TLeaf? && Formed(l)
  {
    match t
    case TLeaf(_, _, _) => t
    case TNode(_, keys, kids) => LeafFor(kids[BisectRight(keys, k)], k)
  }

  lemma {:induction false} LeafHasKey(t: Tree, lo: Bound, hi: Bound, k: int)
    requires Ordered(t, lo, hi) && Within(lo, k, hi)
    ensures Formed(t) && Lookup(EntriesOf(t), k) == Lookup(EntriesOf(LeafFor(t, k)), k)
    ensures Increasing(LeafFor(t, k).keys)
  {
    OrderedFormed(t, lo, hi);
    if t.TNode? {
      Route(t, lo, hi, k);
      var i := BisectRight(t.keys, k);
      Local(Flat(t.kids[..i]), EntriesOf(t.kids[i]), Flat(t.kids[i + 1..]), k, Ptr(0, 0));
      LeafHasKey(t.kids[i], Lo(lo, t.keys, i), Hi(hi, t.keys, i), k);
    }
  }

  // ---------------------------------------------------------------- insertion

  /** What inserting below a node gives its parent: one subtree, or two and the key between them. */
  datatype Ins = One(t: Tree) | Two(left: Tree, sep: int, right: Tree)

  function SplitLeaf(pid: nat, keys: seq<int>, vals: seq<Ptr>, next: nat): Ins
    requires |keys| == |vals| && |keys| >= 2
  {
    var mid := (|keys| + 1) / 2;
    Two(TLeaf(pid, keys[..mid], vals[..mid]), keys[mid], TLeaf(next, keys[mid..], vals[mid..]))
  }

  function SplitNode(pid: nat, keys: seq<int>, kids: seq<Tree>, next: nat): Ins
    requires |kids| == |keys| + 1 && |keys| >= 2
  {
    var mid := |keys| / 2;
    Two(TNode(pid, keys[..mid], kids[..mid + 1]), keys[mid], TNode(next, keys[mid + 1..], kids[mid + 1..]))
  }

  /** Both kinds of split halve: the two nodes differ by one key at most, and the lower one is never the smaller. */
  lemma SplitsHalve(pid: nat, keys: seq<int>, vals: seq<Ptr>, kids: seq<Tree>, next: nat)
    requires |keys| == |vals| >= 2 && |kids| == |keys| + 1
    ensures var u := SplitLeaf(pid, keys, vals, next); |u.right.keys| <= |u.left.keys| <= |u.right.keys| + 1
    ensures var u := SplitNode(pid, keys, kids, next); |u.right.keys| <= |u.left.keys| <= |u.right.keys| + 1
  {
  }

  function InsertLeaf(t: Tree, k: int, p: Ptr): Tree
    requires t.TLeaf? && Formed(t)
  {
    var pos := BisectLeft(t.keys, k);
    TLeaf(t.pid, t.keys[..pos] + [k] + t.keys[pos..], t.vals[..pos] + [p] + t.vals[pos..])
  }

  /** The node once child i has split. */
  function InsertKid(t: Tree, i: nat, r: Ins): Tree
    requires t.TNode? && |t.kids| == |t.keys| + 1 && i < |t.kids| && r.Two?
  {
    TNode(t.pid, t.keys[..i] + [r.sep] + t.keys[i..], t.kids[..i] + [r.left, r.right] + t.kids[i + 1..])
  }

  /** What a node makes of its child's result. */
  function InsertUp(t: Tree, i: nat, r: Ins, next: nat, m: nat): Ins
    requires t.TNode? && |t.kids| == |t.keys| + 1 && i < |t.kids| && m >= 1
  {
    match r
    case One(kid) => One(TNode(t.pid, t.keys, t.kids[i := kid]))
    case Two(_, _, _) =>
      var t1 := InsertKid(t, i, r);
      if |t1.keys| <= m then One(t1) else SplitNode(t.pid, t1.keys, t1.kids, next)
  }

  /** `_insert_recursive`; new pages are numbered from `next` on. */
  function InsertT(t: Tree, k: int, p: Ptr, next: nat, m: nat): (Ins, nat)
    requires Formed(t) && m >= 1
    decreases t
  {
    match t
    case TLeaf(pid, keys, vals) =>
      var t1 := InsertLeaf(t, k, p);
      if |t1.keys| <= m then (One(t1), next) else (SplitLeaf(pid, t1.keys, t1.vals, next), next + 1)
    case TNode(pid, keys, kids) =>
      var i := BisectRight(keys, k);
      var (r, next1) := InsertT(kids[i], k, p, next, m);
      var u := InsertUp(t, i, r, next1, m);
      (u, if u.Two? then next1 + 1 else next1)
  }

  // ---------------------------------------------------------------- insertion keeps the order

  ghost predicate InsOrdered(r: Ins, lo: Bound, hi: Bound) {
    match r
    case One(t) => Ordered(t, lo, hi)
    case Two(l, sep, rt) =>
      && Ordered(l, lo, Some(sep)) && Ordered(rt, Some(sep), hi)
      && Within(lo, sep, hi) && (lo.Some? ==> lo.value < sep)
  }

  lemma SplitLeafOrdered(t: Tree, lo: Bound, hi: Bound, next: nat)
    requires t.TLeaf? && Ordered(t, lo, hi) && |t.keys| >= 2
    ensures InsOrdered(SplitLeaf(t.pid, t.keys, t.vals, next), lo, hi)
  {
    assert t.keys[0] < t.keys[(|t.keys| + 1) / 2];
  }

  /** Ordered, from its parts and into its parts. */
  lemma PackNode(pid: nat, keys: seq<int>, kids: seq<Tree>, lo: Bound, hi: Bound)
    requires |kids| == |keys| + 1 && Increasing(keys) && forall i :: 0 <= i < |keys| ==> Within(lo, keys[i], hi)
    requires forall i :: 0 <= i < |kids| ==> Ordered(kids[i], Lo(lo, keys, i), Hi(hi, keys, i))
    ensures Ordered(TNode(pid, keys, kids), lo, hi)
  {
  }

  lemma UnpackNode(t: Tree, lo: Bound, hi: Bound)
    requires t.TNode? && Ordered(t, lo, hi)
    ensures |t.kids| == |t.keys| + 1 && Increasing(t.keys) && forall i :: 0 <= i < |t.keys| ==> Within(lo, t.keys[i], hi)
    ensures forall i :: 0 <= i < |t.kids| ==> Ordered(t.kids[i], Lo(lo, t.keys, i), Hi(hi, t.keys, i))
  {
  }

  lemma SplitNodeOrdered(t: Tree, lo: Bound, hi: Bound, next: nat)
    requires t.TNode? && Ordered(t, lo, hi) && |t.keys| >= 2 && |t.kids| == |t.keys| + 1
    ensures InsOrdered(SplitNode(t.pid, t.keys, t.kids, next), lo, hi)
  {
    hide Ordered;
    UnpackNode(t, lo, hi);
    LeftPart(t, lo, hi, |t.keys| / 2);
    RightPart(t, lo, hi, |t.keys| / 2, next);
    assert t.keys[0] < t.keys[|t.keys| / 2];
  }

  lemma LeftPart(t: Tree, lo: Bound, hi: Bound, mid: nat)
    requires t.TNode? && Ordered(t, lo, hi) && mid < |t.keys| && |t.kids| == |t.keys| + 1
    ensures Ordered(TNode(t.pid, t.keys[..mid], t.kids[..mid + 1]), lo, Some(t.keys[mid]))
  {
    hide Ordered;
    UnpackNode(t, lo, hi);
    var keys, kids, sep := t.keys[..mid], t.kids[..mid + 1], Some(t.keys[mid]);
    forall i | 0 <= i < |kids| ensures Ordered(kids[i], Lo(lo, keys, i), Hi(sep, keys, i)) {
      assert Lo(lo, keys, i) == Lo(lo, t.keys, i) && Hi(sep, keys, i) == Hi(hi, t.keys, i);
    }
    PackNode(t.pid, keys, kids, lo, sep);
  }

  lemma RightPart(t: Tree, lo: Bound, hi: Bound, mid: nat, next: nat)
    requires t.TNode? && Ordered(t, lo, hi) && mid < |t.keys| && |t.kids| == |t.keys| + 1
    ensures Ordered(TNode(next, t.keys[mid + 1..], t.kids[mid + 1..]), Some(t.keys[mid]), hi)
  {
    hide Ordered;
    UnpackNode(t, lo, hi);
    var keys, kids, sep := t.keys[mid + 1..], t.kids[mid + 1..], Some(t.keys[mid]);
    forall i | 0 <= i < |kids| ensures Ordered(kids[i], Lo(sep, keys, i), Hi(hi, keys, i)) {
      var j := mid + 1 + i;
      assert Lo(sep, keys, i) == Lo(lo, t.keys, j) && Hi(hi, keys, i) == Hi(hi, t.keys, j);
      assert kids[i] == t.kids[j];
    }
    PackNode(next, keys, kids, sep, hi);
  }

  lemma InsertKidOrdered(t: Tree, lo: Bound, hi: Bound, i: nat, r: Ins)
    requires t.TNode? && Ordered(t, lo, hi) && i < |t.kids| == |t.keys| + 1 && r.Two?
    requires InsOrdered(r, Lo(lo, t.keys, i), Hi(hi, t.keys, i))
    ensures Ordered(InsertKid(t, i, r), lo, hi)
  {
    hide Ordered, Lo, Hi, Within, Increasing;
    UnpackNode(t, lo, hi);
    var t1 := InsertKid(t, i, r);
    SepWithin(t, lo, hi, i, r);
    SeparatorFits(t.keys, i, r.sep, lo, hi);
    forall j | 0 <= j < |t1.kids| ensures Ordered(t1.kids[j], Lo(lo, t1.keys, j), Hi(hi, t1.keys, j)) {
      KidInserted(t, lo, hi, i, r, j);
    }
    PackNode(t.pid, t1.keys, t1.kids, lo, hi);
  }

  lemma SepWithin(t: Tree, lo: Bound, hi: Bound, i: nat, r: Ins)
    requires t.TNode? && i <= |t.keys| && r.Two? && InsOrdered(r, Lo(lo, t.keys, i), Hi(hi, t.keys, i))
    ensures Within(Lo(lo, t.keys, i), r.sep, Hi(hi, t.keys, i))
    ensures Lo(lo, t.keys, i).Some? ==> Lo(lo, t.keys, i).value < r.sep
  {
    hide Ordered;
  }

  /** The bounds of each child once the two halves of child i are in place. */
  lemma KidInserted(t: Tree, lo: Bound, hi: Bound, i: nat, r: Ins, j: nat)
    requires t.TNode? && |t.kids| == |t.keys| + 1 && i < |t.kids| && r.Two? && j <= |t.kids|
    requires forall l :: 0 <= l < |t.kids| ==> Ordered(t.kids[l], Lo(lo, t.keys, l), Hi(hi, t.keys, l))
    requires InsOrdered(r, Lo(lo, t.keys, i), Hi(hi, t.keys, i))
    ensures var t1 := InsertKid(t, i, r); Ordered(t1.kids[j], Lo(lo, t1.keys, j), Hi(hi, t1.keys, j))
  {
    hide Ordered;
    var t1 := InsertKid(t, i, r);
    if j < i {
      assert t1.kids[j] == t.kids[j];
      assert Lo(lo, t1.keys, j) == Lo(lo, t.keys, j) && Hi(hi, t1.keys, j) == Hi(hi, t.keys, j);
    } else if j > i + 1 {
      assert t1.kids[j] == t.kids[j - 1];
      assert Lo(lo, t1.keys, j) == Lo(lo, t.keys, j - 1) && Hi(hi, t1.keys, j) == Hi(hi, t.keys, j - 1);
    }
  }

  lemma SeparatorFits(keys: seq<int>, i: nat, sep: int, lo: Bound, hi: Bound)
    requires Increasing(keys) && i <= |keys| && forall j :: 0 <= j < |keys| ==> Within(lo, keys[j], hi)
    requires Within(Lo(lo, keys, i), sep, Hi(hi, keys, i)) && (Lo(lo, keys, i).Some? ==> Lo(lo, keys, i).value < sep)
    ensures var keys' := keys[..i] + [sep] + keys[i..];
            Increasing(keys') && forall j :: 0 <= j < |keys'| ==> Within(lo, keys'[j], hi)
  {
    forall j | 0 <= j < i ensures keys[j] < sep {
      assert keys[j] <= keys[i - 1];
    }
    forall j | i <= j < |keys| ensures sep < keys[j] {
      assert keys[i] <= keys[j];
    }
    IncreasingInsert(keys, i, sep);
    if i > 0 {
      assert Within(lo, keys[i - 1], hi);
    }
    if i < |keys| {
      assert Within(lo, keys[i], hi);
    }
  }

  lemma ReplaceKidOrdered(t: Tree, lo: Bound, hi: Bound, i: nat, kid: Tree)
    requires t.TNode? && Ordered(t, lo, hi) && i < |t.kids| && Ordered(kid, Lo(lo, t.keys, i), Hi(hi, t.keys, i))
    ensures Ordered(TNode(t.pid, t.keys, t.kids[i := kid]), lo, hi)
  {
  }

  /** Insertion of an absent key: order, bounds and entries. */
  lemma {:induction false} InsertCorrect(t: Tree, lo: Bound, hi: Bound, k: int, p: Ptr, next: nat, m: nat)
    requires Ordered(t, lo, hi) && Within(lo, k, hi) && m >= 1 && Formed(t)
    requires Lookup(EntriesOf(t), k) == None
    ensures var r := InsertT(t, k, p, next, m).0;
            && InsOrdered(r, lo, hi) && InsFormed(r)
            && EntriesOfIns(r) == Insert(EntriesOf(t), k, p)
    decreases t
  {
    match t
    case TLeaf(_, _, _) => InsertLeafCorrect(t, lo, hi, k, p, next, m);
    case TNode(_, keys, kids) =>
      hide Lookup, Insert, Remove, Flat, EntriesOf, Ordered, InsertUp, Lo, Hi, Within;
      UnpackNode(t, lo, hi);
      Route(t, lo, hi, k);
      var i := BisectRight(keys, k);
      var a, b, c := Flat(kids[..i]), EntriesOf(kids[i]), Flat(kids[i + 1..]);
      Local(a, b, c, k, p);
      InsertCorrect(kids[i], Lo(lo, keys, i), Hi(hi, keys, i), k, p, next, m);
      var (r, next1) := InsertT(kids[i], k, p, next, m);
      assert a + EntriesOfIns(r) + c == Insert(EntriesOf(t), k, p);
      InsertUpCorrect(t, lo, hi, i, r, next1, m);
  }

  ghost predicate InsFormed(r: Ins) {
    match r case One(t) => Formed(t) case Two(l, _, rt) => Formed(l) && Formed(rt)
  }

  function EntriesOfIns(r: Ins): seq<Entry>
    requires InsFormed(r)
  {
    match r case One(t) => EntriesOf(t) case Two(l, _, rt) => EntriesOf(l) + EntriesOf(rt)
  }

  lemma InsOrderedFormed(r: Ins, lo: Bound, hi: Bound)
    requires InsOrdered(r, lo, hi)
    ensures InsFormed(r)
  {
    match r
    case One(t) => OrderedFormed(t, lo, hi);
    case Two(l, sep, rt) =>
      OrderedFormed(l, lo, Some(sep));
      OrderedFormed(rt, Some(sep), hi);
  }

  lemma LeafGrown(t: Tree, lo: Bound, hi: Bound, k: int, p: Ptr)
    requires t.TLeaf? && Ordered(t, lo, hi) && Within(lo, k, hi) && Formed(t) && Lookup(EntriesOf(t), k) == None
    ensures var t1 := InsertLeaf(t, k, p);
            Formed(t1) && Ordered(t1, lo, hi) && EntriesOf(t1) == Insert(EntriesOf(t), k, p)
  {
    hide BisectLeft, Insert, Lookup, Remove;
    LeafFind(t.keys, t.vals, k);
    LeafInsert(t.keys, t.vals, k, p);
    KeysWithin(t.keys, BisectLeft(t.keys, k), k, lo, hi);
    hide Increasing, Zip;
  }

  lemma KeysWithin(keys: seq<int>, i: nat, k: int, lo: Bound, hi: Bound)
    requires i <= |keys| && Within(lo, k, hi) && forall j :: 0 <= j < |keys| ==> Within(lo, keys[j], hi)
    ensures var keys' := keys[..i] + [k] + keys[i..]; forall j :: 0 <= j < |keys'| ==> Within(lo, keys'[j], hi)
  {
  }

  lemma SplitLeafEntries(t: Tree, next: nat)
    requires t.TLeaf? && Formed(t) && |t.keys| >= 2
    ensures var r := SplitLeaf(t.pid, t.keys, t.vals, next); InsFormed(r) && EntriesOfIns(r) == EntriesOf(t)
  {
    ZipSplit(t.keys, t.vals, (|t.keys| + 1) / 2);
    hide Zip;
  }

  lemma ZipSplit(keys: seq<int>, vals: seq<Ptr>, mid: nat)
    requires |keys| == |vals| && mid <= |keys|
    ensures Zip(keys, vals) == Zip(keys[..mid], vals[..mid]) + Zip(keys[mid..], vals[mid..])
  {
  }

  lemma InsertLeafCorrect(t: Tree, lo: Bound, hi: Bound, k: int, p: Ptr, next: nat, m: nat)
    requires t.TLeaf? && Ordered(t, lo, hi) && Within(lo, k, hi) && m >= 1 && Formed(t)
    requires Lookup(EntriesOf(t), k) == None
    ensures var r := InsertT(t, k, p, next, m).0;
            && InsOrdered(r, lo, hi) && InsFormed(r)
            && EntriesOfIns(r) == Insert(EntriesOf(t), k, p)
  {
    LeafGrown(t, lo, hi, k, p);
    hide InsertLeaf, Insert, Lookup, Ordered, EntriesOf, SplitLeaf;
    var t1 := InsertLeaf(t, k, p);
    assert t1.TLeaf? && t1.pid == t.pid by {
      LeafPid(t, k, p);
    }
    if |t1.keys| > m {
      SplitLeafOrdered(t1, lo, hi, next);
      SplitLeafEntries(t1, next);
    }
  }

  lemma LeafPid(t: Tree, k: int, p: Ptr)
    requires t.TLeaf? && Formed(t)
    ensures InsertLeaf(t, k, p).TLeaf? && InsertLeaf(t, k, p).pid == t.pid
    ensures |InsertLeaf(t, k, p).keys| == |t.keys| + 1 == |InsertLeaf(t, k, p).vals|
  {
  }

  lemma InsertUpCorrect(t: Tree, lo: Bound, hi: Bound, i: nat, r: Ins, next: nat, m: nat)
    requires t.TNode? && Ordered(t, lo, hi) && Formed(t) && i < |t.kids| && m >= 1
    requires InsOrdered(r, Lo(lo, t.keys, i), Hi(hi, t.keys, i)) && InsFormed(r)
    ensures var u := InsertUp(t, i, r, next, m);
            && InsOrdered(u, lo, hi) && InsFormed(u)
            && EntriesOfIns(u) == Flat(t.kids[..i]) + EntriesOfIns(r) + Flat(t.kids[i + 1..])
  {
    hide Ordered, EntriesOf, Flat, Lo, Hi, SplitNode, InsertKid;
    match r
    case One(kid) => OneUp(t, lo, hi, i, kid);
    case Two(_, _, _) =>
      TwoUp(t, lo, hi, i, r);
      var t1 := InsertKid(t, i, r);
      if |t1.keys| > m {
        SplitUp(t1, lo, hi, next);
      }
  }

  lemma OneUp(t: Tree, lo: Bound, hi: Bound, i: nat, kid: Tree)
    requires t.TNode? && Ordered(t, lo, hi) && Formed(t) && i < |t.kids|
    requires Ordered(kid, Lo(lo, t.keys, i), Hi(hi, t.keys, i)) && Formed(kid)
    ensures var t1 := TNode(t.pid, t.keys, t.kids[i := kid]);
            Ordered(t1, lo, hi) && Formed(t1) && EntriesOf(t1) == Flat(t.kids[..i]) + EntriesOf(kid) + Flat(t.kids[i + 1..])
  {
    hide Ordered, EntriesOf, Flat, Lo, Hi;
    var t1 := TNode(t.pid, t.keys, t.kids[i := kid]);
    ReplaceKidOrdered(t, lo, hi, i, kid);
    OrderedFormed(t1, lo, hi);
    FlatReplace(t.kids, i, [kid]);
    assert t.kids[i := kid] == t.kids[..i] + [kid] + t.kids[i + 1..];
    FlatOne(kid);
    EntriesOfNode(t1);
  }

  lemma TwoUp(t: Tree, lo: Bound, hi: Bound, i: nat, r: Ins)
    requires t.TNode? && Ordered(t, lo, hi) && Formed(t) && i < |t.kids| && r.Two?
    requires InsOrdered(r, Lo(lo, t.keys, i), Hi(hi, t.keys, i)) && InsFormed(r)
    ensures var t1 := InsertKid(t, i, r);
            && t1.TNode? && t1.pid == t.pid && |t1.keys| == |t.keys| + 1 && Ordered(t1, lo, hi) && Formed(t1) && |t1.kids| == |t1.keys| + 1
            && EntriesOf(t1) == Flat(t.kids[..i]) + EntriesOfIns(r) + Flat(t.kids[i + 1..])
  {
    hide Ordered, EntriesOf, Flat, Lo, Hi, InsOrdered;
    var t1 := InsertKid(t, i, r);
    InsertKidOrdered(t, lo, hi, i, r);
    OrderedFormed(t1, lo, hi);
    FlatReplace(t.kids, i, [r.left, r.right]);
    FlatTwo(r.left, r.right);
    EntriesOfNode(t1);
  }

  lemma SplitUp(t1: Tree, lo: Bound, hi: Bound, next: nat)
    requires t1.TNode? && Ordered(t1, lo, hi) && Formed(t1) && |t1.keys| >= 2
    ensures var u := SplitNode(t1.pid, t1.keys, t1.kids, next);
            InsOrdered(u, lo, hi) && InsFormed(u) && EntriesOfIns(u) == EntriesOf(t1)
  {
    hide Ordered, EntriesOf, Flat, InsOrdered;
    SplitNodeOrdered(t1, lo, hi, next);
    var u := SplitNode(t1.pid, t1.keys, t1.kids, next);
    InsOrderedFormed(u, lo, hi);
    var mid := |t1.keys| / 2;
    assert t1.kids == t1.kids[..mid + 1] + t1.kids[mid + 1..];
    FlatConcat(t1.kids[..mid + 1], t1.kids[mid + 1..]);
    EntriesOfNode(u.left);
    EntriesOfNode(u.right);
    EntriesOfNode(t1);
  }

  lemma EntriesOfNode(t: Tree)
    requires t.TNode? && Formed(t)
    ensures EntriesOf(t) == Flat(t.kids)
  {
  }

  lemma FlatOne(t: Tree)
    requires Formed(t)
    ensures Flat([t]) == EntriesOf(t)
  {
    assert Flat([t]) == EntriesOf(t) + Flat([]);
  }

  lemma FlatTwo(t: Tree, u: Tree)
    requires Formed(t) && Formed(u)
    ensures Flat([t, u]) == EntriesOf(t) + EntriesOf(u)
  {
    assert [t, u] == [t] + [u];
    FlatConcat([t], [u]);
    FlatOne(t);
    FlatOne(u);
  }
}
