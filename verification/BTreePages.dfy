/** A B+ tree laid out on pages: which pages a tree owns, that it owns them alone, the leaf chain,
    and what insertion and deletion do to all three. */
module BTreePages {
  import opened Pages
  import opened Entries
  import opened BTree
  import opened BTreeShape
  import opened SlottedPages

  /** The decoded content of an index page. */
  datatype Node =
    | Leaf(keys: seq<int>, vals: seq<Ptr>, next: int)
    | Internal(keys: seq<int>, children: seq<nat>)

  function Pids(kids: seq<Tree>): (s: seq<nat>)
    ensures |s| == |kids| && forall i :: 0 <= i < |kids| ==> s[i] == kids[i].pid
  {
    seq(|kids|, i requires 0 <= i < |kids| => kids[i].pid)
  }

  function FirstLeaf(t: Tree): int
    requires Formed(t)
  {
    if t.TLeaf? then t.pid else FirstLeaf(t.kids[0])
  }

  /** The leaf that follows the last leaf of child i. */
  function NextOf(kids: seq<Tree>, i: nat, next: int): int
    requires i < |kids| && forall j :: 0 <= j < |kids| ==> Formed(kids[j])
  {
    if i + 1 < |kids| then FirstLeaf(kids[i + 1]) else next
  }

  /** Tree t is on the pages, and the leaf chain leaves it towards page `next`. */
  ghost predicate Stored(nodes: seq<Node>, t: Tree, next: int)
    requires Formed(t)
    decreases t
  {
    && t.pid < |nodes|
    && match t
       case TLeaf(pid, keys, vals) => nodes[pid] == Leaf(keys, vals, next)
       case TNode(pid, keys, kids) =>
         && nodes[pid] == Internal(keys, Pids(kids))
         && forall i :: 0 <= i < |kids| ==> Stored(nodes, kids[i], NextOf(kids, i, next))
  }

  ghost predicate Owns(t: Tree, p: int)
    decreases t
  {
    p == t.pid || (t.TNode? && exists i :: 0 <= i < |t.kids| && Owns(t.kids[i], p))
  }

  ghost predicate Apart(kids: seq<Tree>) {
    forall i, j, p :: 0 <= i < j < |kids| && Owns(kids[i], p) ==> !Owns(kids[j], p)
  }

  /** No page is used twice in the tree. */
  ghost predicate Unshared(t: Tree)
    decreases t
  {
    t.TNode? ==>
      && Apart(t.kids)
      && forall i :: 0 <= i < |t.kids| ==> !Owns(t.kids[i], t.pid) && Unshared(t.kids[i])
  }

  /** The pages of the tree are below `next`, where the next page will be allocated. */
  ghost predicate Under(t: Tree, next: nat) {
    forall p :: Owns(t, p) ==> 0 <= p < next
  }

  // ---------------------------------------------------------------- frames

  /** A tree is still stored as long as its own pages are unchanged. */
  lemma {:induction false} StoredFrame(nodes: seq<Node>, nodes': seq<Node>, t: Tree, next: int)
    requires Formed(t) && Stored(nodes, t, next) && |nodes| <= |nodes'|
    requires forall p :: 0 <= p < |nodes| && Owns(t, p) ==> nodes'[p] == nodes[p]
    ensures Stored(nodes', t, next)
  {
    if t.TNode? {
      forall i | 0 <= i < |t.kids| ensures Stored(nodes', t.kids[i], NextOf(t.kids, i, next)) {
        StoredFrame(nodes, nodes', t.kids[i], NextOf(t.kids, i, next));
      }
    }
  }

  lemma {:induction false} StoredUnder(nodes: seq<Node>, t: Tree, next: int)
    requires Formed(t) && Stored(nodes, t, next)
    ensures Under(t, |nodes|)
  {
    if t.TNode? {
      forall i | 0 <= i < |t.kids| ensures Under(t.kids[i], |nodes|) {
        StoredUnder(nodes, t.kids[i], NextOf(t.kids, i, next));
      }
    }
  }

  lemma UnderKid(t: Tree, i: nat, next: nat)
    requires t.TNode? && i < |t.kids| && Under(t, next)
    ensures Under(t.kids[i], next)
  {
    forall p | Owns(t.kids[i], p) ensures 0 <= p < next {
      assert Owns(t, p);
    }
  }

  // ---------------------------------------------------------------- insertion and pages

  ghost predicate OwnsIns(r: Ins, p: int) {
    match r case One(t) => Owns(t, p) case Two(l, _, rt) => Owns(l, p) || Owns(rt, p)
  }

  ghost predicate UnsharedIns(r: Ins) {
    match r
    case One(t) => Unshared(t)
    case Two(l, _, rt) => Unshared(l) && Unshared(rt) && forall p :: Owns(l, p) ==> !Owns(rt, p)
  }

  /** The pages after an insertion: those before it and the ones allocated in between. */
  ghost predicate OwnsGrown(r: Ins, t: Tree, next: nat, next1: nat) {
    forall p :: OwnsIns(r, p) <==> (Owns(t, p) || next <= p < next1)
  }

  function Left(r: Ins): Tree {
    match r case One(t) => t case Two(l, _, _) => l
  }

  /** The result of inserting below page t.pid, with its pages and the head of its leaf chain. */
  ghost predicate InsPages(r: Ins, t: Tree, next: nat, next1: nat)
    requires Formed(t)
  {
    && InsFormed(r) && next <= next1 && UnsharedIns(r) && OwnsGrown(r, t, next, next1)
    && Left(r).pid == t.pid && FirstLeaf(Left(r)) == FirstLeaf(t)
    && (r.Two? ==> r.right.pid >= next)
  }

  lemma LeafPages(t: Tree, k: int, p: Ptr, next: nat, m: nat)
    requires t.TLeaf? && Formed(t) && m >= 1 && Under(t, next)
    ensures var (r, next1) := InsertT(t, k, p, next, m); InsPages(r, t, next, next1)
  {
    hide BisectLeft;
    assert Owns(t, t.pid);
  }

  lemma {:induction false} InsertPages(t: Tree, k: int, p: Ptr, next: nat, m: nat)
    requires Formed(t) && m >= 1 && Unshared(t) && Under(t, next)
    ensures var (r, next1) := InsertT(t, k, p, next, m); InsPages(r, t, next, next1)
    decreases t
  {
    match t
    case TLeaf(_, _, _) => LeafPages(t, k, p, next, m);
    case TNode(_, keys, kids) =>
      hide Owns, Unshared, Under, InsPages, FirstLeaf, InsertUp;
      var i := BisectRight(keys, k);
      UnderKid(t, i, next);
      KidUnshared(t, i);
      InsertPages(kids[i], k, p, next, m);
      var (r, next1) := InsertT(kids[i], k, p, next, m);
      UpPages(t, i, r, next, next1, m);
  }

  lemma KidUnshared(t: Tree, i: nat)
    requires t.TNode? && i < |t.kids| && Unshared(t)
    ensures Unshared(t.kids[i]) && !Owns(t.kids[i], t.pid)
  {
  }

  /** Kids after child i has been replaced by the parts of r. */
  function Spliced(kids: seq<Tree>, i: nat, r: Ins): seq<Tree>
    requires i < |kids|
  {
    match r
    case One(kid) => kids[i := kid]
    case Two(l, _, rt) => kids[..i] + [l, rt] + kids[i + 1..]
  }

  /** Where each spliced child comes from. */
  lemma SplicedAt(kids: seq<Tree>, i: nat, r: Ins, j: nat)
    requires i < |kids| && j < |Spliced(kids, i, r)|
    ensures var s := Spliced(kids, i, r);
            && (j < i ==> s[j] == kids[j])
            && (j == i ==> s[j] == Left(r))
            && (j > i && r.One? ==> s[j] == kids[j])
            && (r.Two? && j == i + 1 ==> s[j] == r.right)
            && (r.Two? && j > i + 1 ==> s[j] == kids[j - 1])
  {
  }

  ghost predicate FromKids(s: seq<Tree>, kids: seq<Tree>, next: nat, next1: nat) {
    && Apart(s)
    && (forall j :: 0 <= j < |s| ==> Unshared(s[j]) && Formed(s[j]))
    && (forall j, p :: 0 <= j < |s| && Owns(s[j], p) ==> next <= p < next1 || AnyOwns(kids, p))
    && (forall p :: next <= p < next1 || AnyOwns(kids, p) ==> AnyOwns(s, p))
  }

  ghost predicate AnyOwns(kids: seq<Tree>, p: int) {
    exists i :: 0 <= i < |kids| && Owns(kids[i], p)
  }

  lemma SplicedOwner(kids: seq<Tree>, i: nat, r: Ins, next: nat, next1: nat, j: nat, p: int)
    requires i < |kids| && j < |Spliced(kids, i, r)| && OwnsGrown(r, kids[i], next, next1)
    requires Owns(Spliced(kids, i, r)[j], p)
    ensures next <= p < next1 || AnyOwns(kids, p)
  {
    hide Owns;
    SplicedAt(kids, i, r, j);
    if j == i || (r.Two? && j == i + 1) {
      assert OwnsIns(r, p);
    }
  }

  lemma SplicedOwns(kids: seq<Tree>, i: nat, r: Ins, next: nat, next1: nat, p: int)
    requires i < |kids| && OwnsGrown(r, kids[i], next, next1)
    requires next <= p < next1 || AnyOwns(kids, p)
    ensures AnyOwns(Spliced(kids, i, r), p)
  {
    hide Owns;
    var s := Spliced(kids, i, r);
    if OwnsIns(r, p) {
      assert Owns(s[i], p) || (r.Two? && Owns(s[i + 1], p));
    } else {
      var j :| 0 <= j < |kids| && Owns(kids[j], p);
      assert j != i;
      assert s[if j < i || r.One? then j else j + 1] == kids[j];
    }
  }

  lemma SplicedApart(kids: seq<Tree>, i: nat, r: Ins, next: nat, next1: nat, j: nat, l: nat, p: int)
    requires i < |kids| && Apart(kids) && (forall j :: 0 <= j < |kids| ==> Under(kids[j], next))
    requires OwnsGrown(r, kids[i], next, next1) && UnsharedIns(r)
    requires j < l < |Spliced(kids, i, r)| && Owns(Spliced(kids, i, r)[j], p)
    ensures !Owns(Spliced(kids, i, r)[l], p)
  {
    hide Owns, Unshared;
    SplicedAt(kids, i, r, j);
    SplicedAt(kids, i, r, l);
    assert OwnsIns(r, p) <==> (Owns(kids[i], p) || next <= p < next1);
    var s := Spliced(kids, i, r);
    var inJ, inL := j == i || (r.Two? && j == i + 1), l == i || (r.Two? && l == i + 1);
    if inJ && !inL {
      var l0 := if r.One? then l else l - 1;
      assert s[l] == kids[l0] && l0 > i;
      assert Under(kids[l0], next);
    } else if !inJ && inL {
      assert s[j] == kids[j] && j < i;
      assert Under(kids[j], next);
    } else if !inJ && !inL {
      assert s[j] == kids[if j < i || r.One? then j else j - 1];
      assert s[l] == kids[if l < i || r.One? then l else l - 1];
    }
  }

  lemma SplicedFrom(t: Tree, i: nat, r: Ins, next: nat, next1: nat)
    requires t.TNode? && Formed(t) && i < |t.kids| && Unshared(t) && Under(t, next)
    requires OwnsGrown(r, t.kids[i], next, next1) && UnsharedIns(r) && InsFormed(r)
    ensures FromKids(Spliced(t.kids, i, r), t.kids, next, next1)
  {
    var kids, s := t.kids, Spliced(t.kids, i, r);
    forall j | 0 <= j < |kids| ensures Under(kids[j], next) {
      UnderKid(t, j, next);
    }
    hide Owns, Under, OwnsGrown, AnyOwns;
    forall j, l, p | 0 <= j < l < |s| && Owns(s[j], p) ensures !Owns(s[l], p) {
      SplicedApart(kids, i, r, next, next1, j, l, p);
    }
    forall j | 0 <= j < |s| ensures Unshared(s[j]) && Formed(s[j]) {
      SplicedAt(kids, i, r, j);
    }
    forall j, p | 0 <= j < |s| && Owns(s[j], p) ensures next <= p < next1 || AnyOwns(kids, p) {
      SplicedOwner(kids, i, r, next, next1, j, p);
    }
    forall p | next <= p < next1 || AnyOwns(kids, p) ensures AnyOwns(s, p) {
      SplicedOwns(kids, i, r, next, next1, p);
    }
  }

  /** A node over spliced children owns its page and theirs. */
  lemma NodeOver(t: Tree, t1: Tree, next: nat, next1: nat)
    requires t.TNode? && t1.TNode? && Formed(t1) && t1.pid == t.pid && Unshared(t) && Under(t, next)
    requires FromKids(t1.kids, t.kids, next, next1)
    ensures Unshared(t1) && OwnsGrown(One(t1), t, next, next1)
  {
    assert Owns(t, t.pid);
    forall p ensures Owns(t1, p) <==> (Owns(t, p) || next <= p < next1) {
      assert Owns(t1, p) <==> p == t1.pid || AnyOwns(t1.kids, p);
      assert Owns(t, p) <==> p == t.pid || AnyOwns(t.kids, p);
    }
    assert !AnyOwns(t.kids, t.pid);
  }

  /** Splitting a node shares its pages out and adds one. */
  lemma SplitPages(t1: Tree, next1: nat)
    requires t1.TNode? && Formed(t1) && Unshared(t1) && Under(t1, next1) && |t1.keys| >= 2
    ensures var r := SplitNode(t1.pid, t1.keys, t1.kids, next1);
            InsFormed(r) && UnsharedIns(r) && OwnsGrown(r, t1, next1, next1 + 1)
  {
    var r := SplitNode(t1.pid, t1.keys, t1.kids, next1);
    var mid := |t1.keys| / 2;
    assert Owns(t1, t1.pid);
    forall p ensures OwnsIns(r, p) <==> (Owns(t1, p) || p == next1) {
      SplitOwns(t1, next1, p);
    }
    forall i | 0 <= i < |t1.kids| ensures !Owns(t1.kids[i], next1) {
      UnderKid(t1, i, next1);
    }
    assert forall i :: 0 <= i < |r.right.kids| ==> r.right.kids[i] == t1.kids[mid + 1 + i];
    forall p | Owns(r.left, p) ensures !Owns(r.right, p) {
      if p != t1.pid {
        var i :| 0 <= i < |r.left.kids| && Owns(r.left.kids[i], p);
        assert t1.kids[i] == r.left.kids[i];
      }
    }
  }

  lemma SplitOwns(t1: Tree, next1: nat, p: int)
    requires t1.TNode? && Formed(t1) && |t1.keys| >= 2
    ensures OwnsIns(SplitNode(t1.pid, t1.keys, t1.kids, next1), p) <==> (Owns(t1, p) || p == next1)
  {
    var r := SplitNode(t1.pid, t1.keys, t1.kids, next1);
    var mid := |t1.keys| / 2;
    assert forall i :: 0 <= i < |r.right.kids| ==> r.right.kids[i] == t1.kids[mid + 1 + i];
    if p != t1.pid && Owns(t1, p) {
      var i :| 0 <= i < |t1.kids| && Owns(t1.kids[i], p);
      if i <= mid {
        assert r.left.kids[i] == t1.kids[i];
      } else {
        assert r.right.kids[i - mid - 1] == t1.kids[i];
      }
    }
  }

  lemma UpFormed(t: Tree, i: nat, r: Ins, next: nat, m: nat)
    requires t.TNode? && Formed(t) && i < |t.kids| && InsFormed(r) && m >= 1
    requires FirstLeaf(Left(r)) == FirstLeaf(t.kids[i])
    ensures var u := InsertUp(t, i, r, next, m);
            InsFormed(u) && Left(u).pid == t.pid && FirstLeaf(Left(u)) == FirstLeaf(t)
  {
    match r
    case One(kid) => SplicedFirst(t, i, r, TNode(t.pid, t.keys, t.kids[i := kid]));
    case Two(_, _, _) =>
      var t1 := InsertKid(t, i, r);
      SplicedFirst(t, i, r, t1);
      if |t1.keys| > m {
        HalfFormed(t1, next);
      }
  }

  /** The leftmost leaf is the same after the splice. */
  lemma SplicedFirst(t: Tree, i: nat, r: Ins, t1: Tree)
    requires t.TNode? && Formed(t) && i < |t.kids| && InsFormed(r) && FirstLeaf(Left(r)) == FirstLeaf(t.kids[i])
    requires t1.TNode? && t1.kids == Spliced(t.kids, i, r) && |t1.kids| == |t1.keys| + 1
    ensures Formed(t1) && FirstLeaf(t1) == FirstLeaf(t)
  {
    SplicedFormed(t, i, r, t1);
    SplicedAt(t.kids, i, r, 0);
    hide Spliced;
  }

  lemma HalfFormed(t1: Tree, next: nat)
    requires t1.TNode? && Formed(t1) && |t1.keys| >= 2
    ensures var u := SplitNode(t1.pid, t1.keys, t1.kids, next);
            InsFormed(u) && FirstLeaf(u.left) == FirstLeaf(t1)
  {
    assert t1.kids[..|t1.keys| / 2 + 1][0] == t1.kids[0];
  }

  lemma UpPages(t: Tree, i: nat, r: Ins, next: nat, next1: nat, m: nat)
    requires t.TNode? && Formed(t) && i < |t.kids| && Unshared(t) && Under(t, next) && m >= 1
    requires InsPages(r, t.kids[i], next, next1)
    ensures var u := InsertUp(t, i, r, next1, m);
            InsPages(u, t, next, if u.Two? then next1 + 1 else next1)
  {
    UpFormed(t, i, r, next1, m);
    SplicedFrom(t, i, r, next, next1);
    hide Owns, Unshared, Under, OwnsGrown, FromKids, FirstLeaf;
    var t1 := if r.One? then TNode(t.pid, t.keys, t.kids[i := r.t]) else InsertKid(t, i, r);
    assert t1.kids == Spliced(t.kids, i, r);
    SplicedFormed(t, i, r, t1);
    NodeOver(t, t1, next, next1);
    if r.Two? && |t1.keys| > m {
      GrownUnder(t1, t, next, next1);
      SplitPages(t1, next1);
      GrownTwice(SplitNode(t.pid, t1.keys, t1.kids, next1), t1, t, next, next1);
    }
  }

  lemma SplicedFormed(t: Tree, i: nat, r: Ins, t1: Tree)
    requires t.TNode? && Formed(t) && i < |t.kids| && InsFormed(r)
    requires t1.TNode? && t1.kids == Spliced(t.kids, i, r) && |t1.kids| == |t1.keys| + 1
    ensures Formed(t1)
  {
    forall j | 0 <= j < |t1.kids| ensures Formed(t1.kids[j]) {
      SplicedAt(t.kids, i, r, j);
    }
  }

  lemma GrownUnder(t1: Tree, t: Tree, next: nat, next1: nat)
    requires OwnsGrown(One(t1), t, next, next1) && Under(t, next) && next <= next1
    ensures Under(t1, next1)
  {
    forall p | Owns(t1, p) ensures 0 <= p < next1 {
      assert OwnsIns(One(t1), p);
    }
  }

  lemma GrownTwice(u: Ins, t1: Tree, t: Tree, next: nat, next1: nat)
    requires OwnsGrown(One(t1), t, next, next1) && OwnsGrown(u, t1, next1, next1 + 1) && next <= next1
    ensures OwnsGrown(u, t, next, next1 + 1)
  {
    forall p ensures OwnsIns(u, p) <==> (Owns(t, p) || next <= p < next1 + 1) {
      assert OwnsIns(One(t1), p) <==> Owns(t1, p);
    }
  }

  // ---------------------------------------------------------------- insertion and storage

  ghost predicate StoredIns(nodes: seq<Node>, r: Ins, next: int)
    requires InsFormed(r)
  {
    match r
    case One(t) => Stored(nodes, t, next)
    case Two(l, _, rt) => Stored(nodes, l, FirstLeaf(rt)) && Stored(nodes, rt, next)
  }

  /** Only pages of t, or new ones, differ. */
  ghost predicate OnlyTree(nodes: seq<Node>, nodes': seq<Node>, t: Tree) {
    |nodes| <= |nodes'| && forall p :: 0 <= p < |nodes| && !Owns(t, p) ==> nodes'[p] == nodes[p]
  }

  /** Everything but page p is as before. */
  predicate OnlyPage(nodes: seq<Node>, nodes': seq<Node>, p: nat) {
    |nodes| <= |nodes'| && forall q :: 0 <= q < |nodes| && q != p ==> nodes'[q] == nodes[q]
  }

  /** What a recursive insertion below child i has left behind. */
  ghost predicate BelowDone(n0: seq<Node>, n1: seq<Node>, t: Tree, i: nat, r: Ins, next: int)
    requires t.TNode? && Formed(t) && i < |t.kids|
  {
    && Stored(n0, t, next) && Unshared(t) && InsPages(r, t.kids[i], |n0|, |n1|)
    && OnlyTree(n0, n1, t.kids[i]) && StoredIns(n1, r, NextOf(t.kids, i, next))
  }

  lemma KeptKid(n0: seq<Node>, n1: seq<Node>, n2: seq<Node>, t: Tree, i: nat, r: Ins, next: int, j: nat)
    requires t.TNode? && Formed(t) && i < |t.kids| && BelowDone(n0, n1, t, i, r, next) && OnlyPage(n1, n2, t.pid)
    requires j < |t.kids| && j != i
    ensures Stored(n2, t.kids[j], NextOf(t.kids, j, next))
  {
    var kid := t.kids[j];
    hide InsPages, FirstLeaf;
    forall p | 0 <= p < |n0| && Owns(kid, p) ensures n2[p] == n0[p] {
      assert !Owns(t.kids[i], p);
      assert p != t.pid;
    }
    StoredFrame(n0, n2, kid, NextOf(t.kids, j, next));
  }

  lemma NewKid(n0: seq<Node>, n1: seq<Node>, n2: seq<Node>, t: Tree, i: nat, r: Ins, next: int, part: Tree, after: int)
    requires t.TNode? && Formed(t) && i < |t.kids| && BelowDone(n0, n1, t, i, r, next) && OnlyPage(n1, n2, t.pid)
    requires Formed(part) && Stored(n1, part, after) && forall p :: Owns(part, p) ==> OwnsIns(r, p)
    ensures Stored(n2, part, after)
  {
    forall p | 0 <= p < |n1| && Owns(part, p) ensures n2[p] == n1[p] {
      assert OwnsIns(r, p);
      assert p != t.pid;
    }
    StoredFrame(n1, n2, part, after);
  }

  lemma PartKids(n0: seq<Node>, n1: seq<Node>, n2: seq<Node>, t: Tree, i: nat, r: Ins, next: int)
    requires t.TNode? && Formed(t) && i < |t.kids| && BelowDone(n0, n1, t, i, r, next) && OnlyPage(n1, n2, t.pid)
    ensures InsFormed(r) && StoredIns(n2, r, NextOf(t.kids, i, next)) && FirstLeaf(Left(r)) == FirstLeaf(t.kids[i])
  {
    hide FirstLeaf, Stored, Owns, OnlyPage, OnlyTree, NextOf;
    match r
    case One(kid) => NewKid(n0, n1, n2, t, i, r, next, kid, NextOf(t.kids, i, next));
    case Two(l, _, rt) =>
      NewKid(n0, n1, n2, t, i, r, next, l, FirstLeaf(rt));
      NewKid(n0, n1, n2, t, i, r, next, rt, NextOf(t.kids, i, next));
  }

  /** The chain leaves spliced child j where it should. */
  lemma NextSpliced(kids: seq<Tree>, i: nat, r: Ins, next: int, j: nat)
    requires i < |kids| && j < |Spliced(kids, i, r)| && InsFormed(r)
    requires (forall l :: 0 <= l < |kids| ==> Formed(kids[l])) && FirstLeaf(Left(r)) == FirstLeaf(kids[i])
    ensures var s := Spliced(kids, i, r);
            && (forall l :: 0 <= l < |s| ==> Formed(s[l]))
            && NextOf(s, j, next)
            == (if j == i && r.Two? then FirstLeaf(r.right)
                else NextOf(kids, if j <= i || r.One? then j else j - 1, next))
  {
    hide FirstLeaf;
    var s := Spliced(kids, i, r);
    forall l | 0 <= l < |s| ensures Formed(s[l]) {
      SplicedAt(kids, i, r, l);
    }
    if j + 1 < |s| {
      SplicedAt(kids, i, r, j + 1);
    }
  }

  lemma SplicedStored(n0: seq<Node>, n1: seq<Node>, n2: seq<Node>, t: Tree, i: nat, r: Ins, next: int, j: nat)
    requires t.TNode? && Formed(t) && i < |t.kids| && BelowDone(n0, n1, t, i, r, next) && OnlyPage(n1, n2, t.pid)
    requires j < |Spliced(t.kids, i, r)|
    ensures var s := Spliced(t.kids, i, r);
            && (forall l :: 0 <= l < |s| ==> Formed(s[l]))
            && Stored(n2, s[j], NextOf(s, j, next))
  {
    hide BelowDone, Stored, OnlyPage, FirstLeaf, NextOf, Spliced;
    PartKids(n0, n1, n2, t, i, r, next);
    NextSpliced(t.kids, i, r, next, j);
    SplicedAt(t.kids, i, r, j);
    if j < i || (j > i && (r.One? || j > i + 1)) {
      var j0 := if j < i || r.One? then j else j - 1;
      SplicedLength(t.kids, i, r);
      KeptKid(n0, n1, n2, t, i, r, next, j0);
    }
  }

  lemma SplicedLength(kids: seq<Tree>, i: nat, r: Ins)
    requires i < |kids|
    ensures |Spliced(kids, i, r)| == |kids| + if r.Two? then 1 else 0
  {
  }

  /** The parent rewritten over its children, or left alone when the child did not split. */
  lemma UpStored(n0: seq<Node>, n1: seq<Node>, n2: seq<Node>, t: Tree, i: nat, r: Ins, next: int, t1: Tree)
    requires t.TNode? && Formed(t) && i < |t.kids| && BelowDone(n0, n1, t, i, r, next) && OnlyPage(n1, n2, t.pid)
    requires t1.TNode? && t1.kids == Spliced(t.kids, i, r) && |t1.kids| == |t1.keys| + 1 && t1.pid == t.pid
    requires t.pid < |n2| && n2[t.pid] == Internal(t1.keys, Pids(t1.kids))
    ensures Formed(t1) && Stored(n2, t1, next)
  {
    SplicedFormed(t, i, r, t1);
    forall j | 0 <= j < |t1.kids| ensures Stored(n2, t1.kids[j], NextOf(t1.kids, j, next)) {
      SplicedStored(n0, n1, n2, t, i, r, next, j);
    }
  }

  /** The parent split in two: the old page keeps the lower half. */
  lemma SplitStored(n0: seq<Node>, n1: seq<Node>, n2: seq<Node>, t: Tree, i: nat, r: Ins, next: int, t1: Tree)
    requires t.TNode? && Formed(t) && i < |t.kids| && BelowDone(n0, n1, t, i, r, next) && OnlyPage(n1, n2, t.pid)
    requires t1.TNode? && t1.kids == Spliced(t.kids, i, r) && |t1.kids| == |t1.keys| + 1 && t1.pid == t.pid
    requires |t1.keys| >= 2 && t.pid < |n1| < |n2|
    requires var u := SplitNode(t1.pid, t1.keys, t1.kids, |n1|);
             && n2[t.pid] == Internal(u.left.keys, Pids(u.left.kids))
             && n2[|n1|] == Internal(u.right.keys, Pids(u.right.kids))
    ensures var u := SplitNode(t1.pid, t1.keys, t1.kids, |n1|);
            InsFormed(u) && StoredIns(n2, u, next)
  {
    SplicedFormed(t, i, r, t1);
    hide BelowDone, Spliced, OnlyPage;
    forall j | 0 <= j < |t1.kids| ensures Stored(n2, t1.kids[j], NextOf(t1.kids, j, next)) {
      SplicedStored(n0, n1, n2, t, i, r, next, j);
    }
    HalvesStored(n2, t1, |n1|, next);
  }

  lemma HalvesStored(nodes: seq<Node>, t1: Tree, pid: nat, next: int)
    requires t1.TNode? && Formed(t1) && |t1.keys| >= 2 && t1.pid < |nodes| && pid < |nodes|
    requires var u := SplitNode(t1.pid, t1.keys, t1.kids, pid);
             && nodes[t1.pid] == Internal(u.left.keys, Pids(u.left.kids))
             && nodes[pid] == Internal(u.right.keys, Pids(u.right.kids))
    requires forall j :: 0 <= j < |t1.kids| ==> Stored(nodes, t1.kids[j], NextOf(t1.kids, j, next))
    ensures var u := SplitNode(t1.pid, t1.keys, t1.kids, pid); InsFormed(u) && StoredIns(nodes, u, next)
  {
    hide Stored, Pids, NextOf;
    var u := SplitNode(t1.pid, t1.keys, t1.kids, pid);
    var m := |t1.keys| / 2 + 1;
    SomeKids(t1.kids, m);
    FirstStored(nodes, t1.kids, m, next);
    RestStored(nodes, t1.kids, m, next);
    FirstOfRight(u.right, t1.kids, m);
    hide FirstLeaf;
    PackStored(nodes, u.left, FirstLeaf(t1.kids[m]));
    PackStored(nodes, u.right, next);
  }

  lemma FirstOfRight(right: Tree, kids: seq<Tree>, m: nat)
    requires m < |kids| && right.TNode? && Formed(right) && right.kids == kids[m..] && AllFormed(kids)
    ensures FirstLeaf(right) == FirstLeaf(kids[m])
  {
    assert right.kids[0] == kids[m];
  }

  /** The children before number m, the leaf chain leaving them for that child's first leaf. */
  lemma FirstStored(nodes: seq<Node>, kids: seq<Tree>, m: nat, next: int)
    requires m < |kids| && AllFormed(kids) && AllFormed(kids[..m])
    requires forall j :: 0 <= j < |kids| ==> Stored(nodes, kids[j], NextOf(kids, j, next))
    ensures forall j :: 0 <= j < m ==> Stored(nodes, kids[..m][j], NextOf(kids[..m], j, FirstLeaf(kids[m])))
  {
    hide Stored, FirstLeaf, Formed;
    forall j | 0 <= j < m ensures Stored(nodes, kids[..m][j], NextOf(kids[..m], j, FirstLeaf(kids[m]))) {
      assert Stored(nodes, kids[j], NextOf(kids, j, next)) && kids[..m][j] == kids[j];
      assert j + 1 < m ==> kids[..m][j + 1] == kids[j + 1];
    }
  }

  lemma RestStored(nodes: seq<Node>, kids: seq<Tree>, m: nat, next: int)
    requires m < |kids| && AllFormed(kids) && AllFormed(kids[m..])
    requires forall j :: 0 <= j < |kids| ==> Stored(nodes, kids[j], NextOf(kids, j, next))
    ensures forall j :: 0 <= j < |kids| - m ==> Stored(nodes, kids[m..][j], NextOf(kids[m..], j, next))
  {
    hide Stored, FirstLeaf, Formed;
    forall j | 0 <= j < |kids| - m ensures Stored(nodes, kids[m..][j], NextOf(kids[m..], j, next)) {
      assert Stored(nodes, kids[m + j], NextOf(kids, m + j, next)) && kids[m..][j] == kids[m + j];
      assert j + 1 < |kids| - m ==> kids[m..][j + 1] == kids[m + j + 1];
    }
  }

  lemma PackStored(nodes: seq<Node>, t: Tree, next: int)
    requires t.TNode? && Formed(t) && t.pid < |nodes| && nodes[t.pid] == Internal(t.keys, Pids(t.kids))
    requires forall i :: 0 <= i < |t.kids| ==> Stored(nodes, t.kids[i], NextOf(t.kids, i, next))
    ensures Stored(nodes, t, next)
  {
  }

  // ---------------------------------------------------------------- deletion

  /** The pages after the leaf for key k has lost it. */
  function LeafCut(nodes: seq<Node>, t: Tree, k: int): seq<Node>
    requires Formed(t) && LeafFor(t, k).pid < |nodes| && nodes[LeafFor(t, k).pid].Leaf?
  {
    var l := LeafFor(t, k);
    var d := DeleteT(l, k);
    nodes[l.pid := Leaf(d.keys, d.vals, nodes[l.pid].next)]
  }

  ghost predicate SameLayout(t: Tree, t1: Tree)
    requires Formed(t) && Formed(t1)
  {
    t1.pid == t.pid && FirstLeaf(t1) == FirstLeaf(t) && (forall p :: Owns(t1, p) <==> Owns(t, p)) && Unshared(t1)
  }

  /** Deletion rewrites the one leaf that holds the key. */
  lemma {:induction false} DeleteStored(nodes: seq<Node>, t: Tree, next: int, k: int)
    requires Formed(t) && Stored(nodes, t, next) && Unshared(t)
    ensures var l := LeafFor(t, k); Owns(t, l.pid) && l.pid < |nodes| && nodes[l.pid].Leaf?
    ensures Stored(LeafCut(nodes, t, k), DeleteT(t, k), next) && SameLayout(t, DeleteT(t, k))
    decreases t
  {
    if t.TNode? {
      var i := BisectRight(t.keys, k);
      DeleteStored(nodes, t.kids[i], NextOf(t.kids, i, next), k);
      KidReplacedPages(t, i, DeleteT(t.kids[i], k));
      KidReplacedStored(nodes, LeafCut(nodes, t, k), t, next, i, DeleteT(t.kids[i], k), LeafFor(t, k).pid);
    }
  }

  lemma KidReplacedPages(t: Tree, i: nat, kid: Tree)
    requires t.TNode? && Formed(t) && i < |t.kids| && Formed(kid) && SameLayout(t.kids[i], kid) && Unshared(t)
    ensures SameLayout(t, TNode(t.pid, t.keys, t.kids[i := kid]))
  {
    var t1 := TNode(t.pid, t.keys, t.kids[i := kid]);
    ReplacedFormed(t, i, kid);
    hide Owns, FirstLeaf, Formed, Unshared;
    KidsOwnSame(t, i, kid, t1);
    SameOwners(t, t1);
    SameFirst(t, t1);
    ReplacedUnshared(t, t1);
  }

  lemma KidsOwnSame(t: Tree, i: nat, kid: Tree, t1: Tree)
    requires t.TNode? && Formed(t) && i < |t.kids| && Formed(kid) && SameLayout(t.kids[i], kid) && Unshared(t)
    requires t1 == TNode(t.pid, t.keys, t.kids[i := kid])
    ensures forall j, p :: 0 <= j < |t.kids| ==> (Owns(t1.kids[j], p) <==> Owns(t.kids[j], p))
    ensures forall j :: 0 <= j < |t.kids| ==> Unshared(t1.kids[j])
  {
    hide Owns, FirstLeaf, Formed;
  }

  lemma ReplacedUnshared(t: Tree, t1: Tree)
    requires t.TNode? && t1.TNode? && t1.pid == t.pid && |t.kids| == |t1.kids| && Unshared(t)
    requires forall j, p :: 0 <= j < |t.kids| ==> (Owns(t1.kids[j], p) <==> Owns(t.kids[j], p))
    requires forall j :: 0 <= j < |t.kids| ==> Unshared(t1.kids[j])
    ensures Unshared(t1)
  {
    hide Owns;
    forall i, j, p | 0 <= i < j < |t1.kids| && Owns(t1.kids[i], p) ensures !Owns(t1.kids[j], p) {
      assert Owns(t.kids[i], p);
    }
  }

  lemma ReplacedFormed(t: Tree, i: nat, kid: Tree)
    requires t.TNode? && Formed(t) && i < |t.kids| && Formed(kid)
    ensures Formed(TNode(t.pid, t.keys, t.kids[i := kid])) && |t.kids| > 0
  {
  }

  lemma SameOwners(t: Tree, t1: Tree)
    requires t.TNode? && t1.TNode? && t1.pid == t.pid && |t.kids| == |t1.kids|
    requires forall j, p :: 0 <= j < |t.kids| ==> (Owns(t1.kids[j], p) <==> Owns(t.kids[j], p))
    ensures forall p :: Owns(t1, p) <==> Owns(t, p)
  {
    forall p ensures Owns(t1, p) <==> Owns(t, p) {
      assert AnyOwns(t1.kids, p) <==> AnyOwns(t.kids, p);
    }
  }

  lemma SameFirst(t: Tree, t1: Tree)
    requires t.TNode? && t1.TNode? && Formed(t) && Formed(t1) && FirstLeaf(t.kids[0]) == FirstLeaf(t1.kids[0])
    ensures FirstLeaf(t) == FirstLeaf(t1)
  {
  }

  lemma KidReplacedStored(nodes: seq<Node>, nodes': seq<Node>, t: Tree, next: int, i: nat, kid: Tree, leaf: nat)
    requires t.TNode? && Formed(t) && Stored(nodes, t, next) && Unshared(t) && i < |t.kids|
    requires Formed(kid) && SameLayout(t.kids[i], kid) && Stored(nodes', kid, NextOf(t.kids, i, next))
    requires Owns(t.kids[i], leaf) && |nodes'| == |nodes| && OnlyPage(nodes, nodes', leaf)
    ensures Stored(nodes', TNode(t.pid, t.keys, t.kids[i := kid]), next)
  {
    var t1 := TNode(t.pid, t.keys, t.kids[i := kid]);
    forall j | 0 <= j < |t1.kids| ensures Stored(nodes', t1.kids[j], NextOf(t1.kids, j, next)) {
      assert NextOf(t1.kids, j, next) == NextOf(t.kids, j, next);
      if j != i {
        assert !Owns(t.kids[j], leaf);
        StoredFrame(nodes, nodes', t.kids[j], NextOf(t.kids, j, next));
      }
    }
    assert Pids(t1.kids) == Pids(t.kids);
    assert nodes'[t.pid] == nodes[t.pid];
  }

  /** Without the key in its leaf, deletion is the identity. */
  lemma {:induction false} DeleteAbsent(t: Tree, k: int)
    requires Formed(t) && DeleteT(LeafFor(t, k), k) == LeafFor(t, k)
    ensures DeleteT(t, k) == t
    decreases t
  {
    if t.TNode? {
      var i := BisectRight(t.keys, k);
      DeleteAbsent(t.kids[i], k);
    }
  }

  // ---------------------------------------------------------------- the leaf chain

  /** The leaves from left to right. */
  function LeavesOf(t: Tree): (ls: seq<Tree>)
    requires Formed(t)
    ensures |ls| > 0 && ls[0].pid == FirstLeaf(t) && forall i :: 0 <= i < |ls| ==> ls[i].TLeaf? && Formed(ls[i])
    decreases t, 0
  {
    if t.TLeaf? then [t] else LeavesAll(t.kids)
  }

  function LeavesAll(kids: seq<Tree>): (ls: seq<Tree>)
    requires forall i :: 0 <= i < |kids| ==> Formed(kids[i])
    ensures forall i :: 0 <= i < |ls| ==> ls[i].TLeaf? && Formed(ls[i])
    ensures kids != [] ==> |ls| > 0 && ls[0].pid == FirstLeaf(kids[0])
    decreases kids, 0
  {
    if kids == [] then [] else LeavesOf(kids[0]) + LeavesAll(kids[1..])
  }

  /** The pages from leaf 0 on: each leaf links to the next, the last one to `next`. */
  predicate Chain(nodes: seq<Node>, ls: seq<Tree>, next: int) {
    forall i :: 0 <= i < |ls| ==> Linked(nodes, ls, i, next)
  }

  predicate Linked(nodes: seq<Node>, ls: seq<Tree>, i: nat, next: int)
    requires i < |ls|
  {
    && ls[i].TLeaf? && ls[i].pid < |nodes|
    && nodes[ls[i].pid] == Leaf(ls[i].keys, ls[i].vals, if i + 1 < |ls| then ls[i + 1].pid else next)
  }

  lemma ChainConcat(nodes: seq<Node>, a: seq<Tree>, b: seq<Tree>, next: int)
    requires Chain(nodes, a, if b == [] then next else b[0].pid) && Chain(nodes, b, next)
    ensures Chain(nodes, a + b, next)
  {
    var ab := a + b;
    forall i | 0 <= i < |ab| ensures Linked(nodes, ab, i, next) {
      if i < |a| {
        assert Linked(nodes, a, i, if b == [] then next else b[0].pid);
      } else {
        assert Linked(nodes, b, i - |a|, next);
      }
    }
  }

  /** In a stored tree the chain from the first leaf visits the leaves in order. */
  lemma {:induction false} StoredChain(nodes: seq<Node>, t: Tree, next: int)
    requires Formed(t) && Stored(nodes, t, next)
    ensures Chain(nodes, LeavesOf(t), next) && Flat(LeavesOf(t)) == EntriesOf(t)
    decreases t, 1
  {
    if t.TLeaf? {
      FlatOne(t);
    } else {
      KidsChain(nodes, t, next, 0);
      assert t.kids[0..] == t.kids;
    }
  }

  lemma {:induction false} KidsChain(nodes: seq<Node>, t: Tree, next: int, j: nat)
    requires t.TNode? && Formed(t) && Stored(nodes, t, next) && j <= |t.kids|
    ensures Chain(nodes, LeavesAll(t.kids[j..]), next) && Flat(LeavesAll(t.kids[j..])) == Flat(t.kids[j..])
    decreases t, 0, |t.kids| - j
  {
    if j < |t.kids| {
      var after := NextOf(t.kids, j, next);
      StoredChain(nodes, t.kids[j], after);
      KidsChain(nodes, t, next, j + 1);
      var a, b := LeavesOf(t.kids[j]), LeavesAll(t.kids[j + 1..]);
      assert t.kids[j..][1..] == t.kids[j + 1..];
      FlatConcat(a, b);
      ChainConcat(nodes, a, b, next);
    }
  }
}
