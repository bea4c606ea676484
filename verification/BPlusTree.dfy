/** The on-disk B+ tree: search, insertion, lazy deletion and range search over node pages, each
    proved against the tree and the entry list the pages stand for. */
module BPlusTree {
  import opened Pages
  import opened Entries
  import opened BTree
  import opened BTreeShape
  import opened BTreePages
  import opened SlottedPages

  const HARD_FANOUT_CAP := 50

  /** Keys per node: what fits in the body of an inner page and of a leaf, capped, and at least four. */
  function MaxKeys(pageSize: int, keySize: nat): int
    requires keySize > 0
  {
    var body := pageSize - 32;
    var maxInternal, maxLeaf := (body - 4) / (keySize + 4), body / (keySize + 8);
    var fit := if maxInternal < maxLeaf then maxInternal else maxLeaf;
    if fit < 4 then 4 else if fit > HARD_FANOUT_CAP then HARD_FANOUT_CAP else fit
  }

  /** The bytes a node takes. */
  function NodeBytes(node: Node, keySize: nat): nat {
    match node
    case Leaf(keys, _, _) => HEADER_SIZE + |keys| * (keySize + 8)
    case Internal(keys, _) => HEADER_SIZE + 4 + |keys| * (keySize + 4)
  }

  /** A node that does not fit its page makes the page too long, and the write is refused. */
  predicate Fits(pageSize: nat, keySize: nat, node: Node) {
    NodeBytes(node, keySize) <= pageSize
  }

  predicate AllFit(pageSize: nat, keySize: nat, nodes: seq<Node>) {
    forall p :: 0 <= p < |nodes| ==> Fits(pageSize, keySize, nodes[p])
  }

  /** A leaf of four keys fits. */
  predicate Roomy(pageSize: nat, keySize: nat) {
    HEADER_SIZE + 4 * (keySize + 8) <= pageSize
  }

  /** A leaf of n keys takes one more: the longer leaf fits, or is split. */
  predicate LeafRoom(pageSize: nat, keySize: nat, n: nat)
    requires keySize > 0
  {
    n >= MaxKeys(pageSize, keySize) || HEADER_SIZE + (n + 1) * (keySize + 8) <= pageSize
  }

  lemma QuotientFits(n: nat, a: int, d: nat)
    requires d > 0 && n <= a / d
    ensures n * d <= a
  {
    assert n * d <= a / d * d;
  }

  lemma MoreBytes(n: nat, m: nat, d: nat)
    requires n <= m
    ensures n * d <= m * d
  {
  }

  lemma MaxKeysQuotients(pageSize: nat, keySize: nat)
    requires keySize > 0 && MaxKeys(pageSize, keySize) > 4
    ensures MaxKeys(pageSize, keySize) <= (pageSize - 32 - 4) / (keySize + 4)
    ensures MaxKeys(pageSize, keySize) <= (pageSize - 32) / (keySize + 8)
  {
  }

  /** On roomy pages every node of up to max_keys keys fits, and only there. */
  lemma RoomyFits(pageSize: nat, keySize: nat, node: Node)
    requires keySize > 0 && |node.keys| <= MaxKeys(pageSize, keySize) && Roomy(pageSize, keySize)
    ensures Fits(pageSize, keySize, node)
  {
    hide MaxKeys;
    var n, body := |node.keys|, pageSize - 32;
    if n <= 4 {
      MoreBytes(n, 4, keySize + 8);
      MoreBytes(n, 4, keySize + 4);
    } else {
      MaxKeysQuotients(pageSize, keySize);
      QuotientFits(n, body - 4, keySize + 4);
      QuotientFits(n, body, keySize + 8);
    }
  }

  lemma FitsQuotient(n: nat, a: int, d: nat)
    requires d > 0 && n * d <= a
    ensures n <= a / d
  {
    var q := a / d;
    assert a < (q + 1) * d;
    TimesMore(q + 1, n, d);
  }

  lemma TimesMore(q: int, n: int, d: nat)
    ensures q <= n ==> q * d <= n * d
  {
  }

  /** max_keys: on roomy pages the largest number up to 50 for which both kinds of node fit, elsewhere four. */
  lemma MaxKeysIs(pageSize: nat, keySize: nat, leaf: Node, inner: Node)
    requires keySize > 0 && leaf.Leaf? && inner.Internal? && |leaf.keys| == |inner.keys|
    ensures var m, n := MaxKeys(pageSize, keySize), |leaf.keys|;
            && 4 <= m <= 50
            && (Roomy(pageSize, keySize) ==> (n <= m <==> n <= 50 && Fits(pageSize, keySize, leaf) && Fits(pageSize, keySize, inner)))
            && (!Roomy(pageSize, keySize) ==> m == 4)
  {
    var m, n, body := MaxKeys(pageSize, keySize), |leaf.keys|, pageSize - 32;
    MaxKeysBound(pageSize, keySize);
    if Roomy(pageSize, keySize) {
      if n <= m {
        RoomyFits(pageSize, keySize, leaf);
        RoomyFits(pageSize, keySize, inner);
      }
      if n <= 50 && Fits(pageSize, keySize, leaf) && Fits(pageSize, keySize, inner) {
        FitsQuotient(n, body - 4, keySize + 4);
        FitsQuotient(n, body, keySize + 8);
      }
    } else if body / (keySize + 8) >= 4 {
      QuotientFits(4, body, keySize + 8);
    }
  }

  lemma RoomyLeaf(pageSize: nat, keySize: nat, n: nat)
    requires keySize > 0 && Roomy(pageSize, keySize)
    ensures LeafRoom(pageSize, keySize, n)
  {
    if n < MaxKeys(pageSize, keySize) {
      RoomyFits(pageSize, keySize, Leaf(seq(n + 1, _ => 0), [], NULL_PAGE));
    }
  }

  /** A stored leaf of max_keys keys shows that the pages are roomy. */
  lemma FullLeafRoomy(pageSize: nat, keySize: nat, keys: seq<int>, vals: seq<Ptr>, after: int)
    requires |keys| >= 4 && Fits(pageSize, keySize, Leaf(keys, vals, after))
    ensures Roomy(pageSize, keySize)
  {
    MoreBytes(4, |keys|, keySize + 8);
  }

  function Height(t: Tree): nat
    requires Formed(t)
  {
    if t.TLeaf? then 1 else 1 + Height(t.kids[0])
  }

  lemma {:induction false} ShapeHeight(t: Tree, h: nat, m: nat, root: bool)
    requires Formed(t) && Shape(t, h, m, root)
    ensures h == Height(t)
  {
    if t.TNode? {
      ShapeHeight(t.kids[0], h - 1, m, false);
    }
  }

  ghost predicate TreeValid(nodes: seq<Node>, t: Tree, m: nat) {
    && m >= 4 && Formed(t) && TreeInv(t, Height(t), m)
    && Stored(nodes, t, NULL_PAGE) && Unshared(t)
  }

  /** What a split hands to the parent: the separator and the new page. */
  function Promotion(r: Ins): Option<(int, nat)> {
    match r case One(_) => None case Two(_, sep, rt) => Some((sep, rt.pid))
  }

  function Found(r: Option<Ptr>): Ptr {
    if r.Some? then r.value else Ptr(-1, -1)
  }

  // ---------------------------------------------------------------- steps of a descent

  /** A descent for `key` in the stored tree t has read `visited` pages and is about to read `pid`. */
  ghost predicate AtNode(nodes: seq<Node>, t: Tree, key: int, m: nat, cur: Tree, next: int, pid: int, visited: nat) {
    && Formed(t) && Formed(cur) && pid == cur.pid && Stored(nodes, cur, next)
    && LeafFor(cur, key) == LeafFor(t, key)
    && visited < Height(t) && Shape(cur, Height(t) - visited, m, visited == 0)
  }

  lemma AtRoot(nodes: seq<Node>, t: Tree, key: int, m: nat)
    requires TreeValid(nodes, t, m)
    ensures AtNode(nodes, t, key, m, t, NULL_PAGE, t.pid, 0)
  {
    hide Stored, Shape, LeafFor;
  }

  lemma AtPage(nodes: seq<Node>, t: Tree, key: int, m: nat, cur: Tree, next: int, pid: int, visited: nat)
    requires AtNode(nodes, t, key, m, cur, next, pid, visited)
    ensures 0 <= pid < |nodes| && (nodes[pid].Leaf? <==> cur.TLeaf?)
  {
  }

  lemma AtInner(nodes: seq<Node>, t: Tree, key: int, m: nat, cur: Tree, next: int, pid: nat, visited: nat)
    requires AtNode(nodes, t, key, m, cur, next, pid, visited) && cur.TNode?
    ensures var i := BisectRight(cur.keys, key);
            && Formed(cur) && i < |cur.kids| && (forall j :: 0 <= j < |cur.kids| ==> Formed(cur.kids[j]))
            && pid < |nodes| && nodes[pid] == Internal(cur.keys, Pids(cur.kids))
            && AtNode(nodes, t, key, m, cur.kids[i], NextOf(cur.kids, i, next), cur.kids[i].pid, visited + 1)
  {
    hide Formed, BisectRight, NextOf, Stored, Shape, LeafFor, Height;
    var i := BisectRight(cur.keys, key);
    KidOnPath(cur, key);
    KidAt(nodes, cur, next, i, Height(t) - visited, m, visited == 0);
    ShapeHeight(cur.kids[i], Height(t) - visited - 1, m, false);
  }

  lemma KidOnPath(t: Tree, key: int)
    requires t.TNode? && Formed(t)
    ensures BisectRight(t.keys, key) < |t.kids| && Formed(t.kids[BisectRight(t.keys, key)])
    ensures LeafFor(t.kids[BisectRight(t.keys, key)], key) == LeafFor(t, key)
  {
  }

  lemma KidAt(nodes: seq<Node>, t: Tree, next: int, i: nat, h: nat, m: nat, root: bool)
    requires t.TNode? && Formed(t) && i < |t.kids| && Stored(nodes, t, next) && Shape(t, h, m, root)
    ensures forall j :: 0 <= j < |t.kids| ==> Formed(t.kids[j])
    ensures t.pid < |nodes| && nodes[t.pid] == Internal(t.keys, Pids(t.kids))
    ensures Stored(nodes, t.kids[i], NextOf(t.kids, i, next)) && h > 1 && Shape(t.kids[i], h - 1, m, false)
  {
    hide FirstLeaf;
  }

  lemma AtLeaf(nodes: seq<Node>, t: Tree, key: int, m: nat, cur: Tree, next: int, pid: nat, visited: nat)
    requires AtNode(nodes, t, key, m, cur, next, pid, visited) && cur.TLeaf?
    ensures pid < |nodes| && nodes[pid] == Leaf(cur.keys, cur.vals, next) && |cur.keys| == |cur.vals|
    ensures Formed(t) && visited + 1 == Height(t) && cur == LeafFor(t, key) && pid == cur.pid
  {
  }

  /** The entry of the leaf a search ends in. */
  lemma LeafAnswers(nodes: seq<Node>, t: Tree, k: int, m: nat)
    requires TreeValid(nodes, t, m)
    ensures var l := LeafFor(t, k); var i := BisectLeft(l.keys, k);
            && |l.vals| == |l.keys|
            && Found(Lookup(EntriesOf(t), k)) == if i < |l.keys| && l.keys[i] == k then l.vals[i] else Ptr(-1, -1)
  {
    hide Ordered, Shape, Stored, Lookup, Remove, EntriesOf, BisectLeft;
    LeafHasKey(t, None, None, k);
    LeafEntry(LeafFor(t, k), k);
  }

  lemma NoEntries(k: int)
    ensures Lookup([], k) == None && Remove([], k) == []
  {
  }

  lemma LeafEntry(l: Tree, k: int)
    requires l.TLeaf? && Formed(l) && Increasing(l.keys)
    ensures var i := BisectLeft(l.keys, k);
            Found(Lookup(EntriesOf(l), k)) == if i < |l.keys| && l.keys[i] == k then l.vals[i] else Ptr(-1, -1)
  {
    LeafFind(l.keys, l.vals, k);
  }

  // ---------------------------------------------------------------- steps of an insertion

  /** What inserting below the page of t has done to the pages. */
  ghost predicate Inserted(n0: seq<Node>, n2: seq<Node>, t: Tree, next: int, key: int, ptr: Ptr, m: nat,
                           promotion: Option<(int, nat)>)
    requires Formed(t) && m >= 1
  {
    var (r, n1) := InsertT(t, key, ptr, |n0|, m);
    && |n2| == n1 && InsPages(r, t, |n0|, n1) && StoredIns(n2, r, next)
    && OnlyTree(n0, n2, t) && promotion == Promotion(r)
  }

  lemma LeafStays(n0: seq<Node>, n2: seq<Node>, t: Tree, next: int, key: int, ptr: Ptr, m: nat)
    requires t.TLeaf? && Formed(t) && Stored(n0, t, next) && m >= 1 && |InsertLeaf(t, key, ptr).keys| <= m
    requires n2 == n0[t.pid := Leaf(InsertLeaf(t, key, ptr).keys, InsertLeaf(t, key, ptr).vals, next)]
    ensures Inserted(n0, n2, t, next, key, ptr, m, None)
  {
    hide BisectLeft;
    StoredUnder(n0, t, next);
    LeafPages(t, key, ptr, |n0|, m);
    assert Owns(t, t.pid);
  }

  lemma LeafSplits(n0: seq<Node>, n2: seq<Node>, t: Tree, next: int, key: int, ptr: Ptr, m: nat)
    requires t.TLeaf? && Formed(t) && Stored(n0, t, next) && m >= 1 && |InsertLeaf(t, key, ptr).keys| > m
    requires |n2| == |n0| + 1 && OnlyPage(n0, n2, t.pid)
    requires var t1 := InsertLeaf(t, key, ptr); var u := SplitLeaf(t.pid, t1.keys, t1.vals, |n0|);
             && n2[t.pid] == Leaf(u.left.keys, u.left.vals, |n0|)
             && n2[|n0|] == Leaf(u.right.keys, u.right.vals, next)
    ensures var t1 := InsertLeaf(t, key, ptr); var u := SplitLeaf(t.pid, t1.keys, t1.vals, |n0|);
            Inserted(n0, n2, t, next, key, ptr, m, Promotion(u))
  {
    hide BisectLeft;
    StoredUnder(n0, t, next);
    LeafPages(t, key, ptr, |n0|, m);
    assert Owns(t, t.pid);
  }

  /** The recursive call's result is what the parent's step starts from. */
  lemma BelowInserted(n0: seq<Node>, n1: seq<Node>, t: Tree, i: nat, next: int, key: int, ptr: Ptr, m: nat,
                      below: Option<(int, nat)>)
    requires t.TNode? && Formed(t) && i < |t.kids| && Stored(n0, t, next) && Unshared(t) && m >= 1
    requires Inserted(n0, n1, t.kids[i], NextOf(t.kids, i, next), key, ptr, m, below)
    ensures var r := InsertT(t.kids[i], key, ptr, |n0|, m).0;
            BelowDone(n0, n1, t, i, r, next) && below == Promotion(r) && |n1| == InsertT(t.kids[i], key, ptr, |n0|, m).1
  {
    hide Stored, Owns, InsPages, Unshared, InsertT, OnlyTree;
  }

  /** And what InsertUp makes of it is what the parent's step has to store. */
  lemma UpInserted(n0: seq<Node>, n1: seq<Node>, n2: seq<Node>, t: Tree, i: nat, next: int, key: int, ptr: Ptr, m: nat)
    requires t.TNode? && Formed(t) && i == BisectRight(t.keys, key) && Unshared(t) && Stored(n0, t, next) && m >= 1
    requires var (r, next1) := InsertT(t.kids[i], key, ptr, |n0|, m); var u := InsertUp(t, i, r, next1, m);
             && BelowDone(n0, n1, t, i, r, next) && |n1| == next1
             && |n2| == (if u.Two? then next1 + 1 else next1)
             && InsFormed(u) && StoredIns(n2, u, next) && OnlyTree(n0, n2, t)
    ensures var (r, next1) := InsertT(t.kids[i], key, ptr, |n0|, m);
            Inserted(n0, n2, t, next, key, ptr, m, Promotion(InsertUp(t, i, r, next1, m)))
  {
    StoredUnder(n0, t, next);
    InsertPages(t, key, ptr, |n0|, m);
    hide Stored, Owns, InsPages, Unshared, OnlyTree, BelowDone, InsertUp;
  }

  /** The parent needs no change when its child did not split. */
  lemma KeptParent(n0: seq<Node>, n1: seq<Node>, t: Tree, i: nat, r: Ins, next: int)
    requires t.TNode? && Formed(t) && i < |t.kids| && BelowDone(n0, n1, t, i, r, next) && r.One?
    ensures var t1 := TNode(t.pid, t.keys, t.kids[i := r.t]); Formed(t1) && Stored(n1, t1, next)
    ensures OnlyTree(n0, n1, t)
  {
    var t1 := TNode(t.pid, t.keys, t.kids[i := r.t]);
    ParentPage(n0, n1, t, i, r, next);
    assert Pids(t1.kids) == Pids(t.kids);
    TreeGrows(n0, n1, n1, t, i);
    UpStored(n0, n1, n1, t, i, r, next, t1);
  }

  lemma ParentPage(n0: seq<Node>, n1: seq<Node>, t: Tree, i: nat, r: Ins, next: int)
    requires t.TNode? && Formed(t) && i < |t.kids| && BelowDone(n0, n1, t, i, r, next)
    ensures t.pid < |n0| && n1[t.pid] == n0[t.pid] == Internal(t.keys, Pids(t.kids))
    ensures OnlyTree(n0, n1, t.kids[i]) && InsFormed(r) && Left(r).pid == t.kids[i].pid && |n0| <= |n1|
  {
  }

  lemma TreeGrows(n0: seq<Node>, n1: seq<Node>, n2: seq<Node>, t: Tree, i: nat)
    requires t.TNode? && i < |t.kids| && OnlyTree(n0, n1, t.kids[i]) && OnlyPage(n1, n2, t.pid)
    ensures OnlyTree(n0, n2, t)
  {
    forall p | 0 <= p < |n0| && !Owns(t, p) ensures n2[p] == n0[p] {
      assert !Owns(t.kids[i], p);
    }
  }

  /** The child list with the new page after child i is the page list of the grown node. */
  lemma GrownChildren(t: Tree, i: nat, r: Ins)
    requires t.TNode? && Formed(t) && i < |t.kids| && r.Two? && r.left.pid == t.kids[i].pid
    ensures var c := Pids(t.kids); Pids(InsertKid(t, i, r).kids) == c[..i + 1] + [r.right.pid] + c[i + 1..]
  {
    var c, t1 := Pids(t.kids), InsertKid(t, i, r);
    var d := c[..i + 1] + [r.right.pid] + c[i + 1..];
    assert t1.kids == Spliced(t.kids, i, r);
    forall j | 0 <= j < |t1.kids| ensures Pids(t1.kids)[j] == d[j] {
      SplicedAt(t.kids, i, r, j);
    }
  }

  lemma GrownParent(n0: seq<Node>, n1: seq<Node>, n2: seq<Node>, t: Tree, i: nat, r: Ins, next: int)
    requires t.TNode? && Formed(t) && i < |t.kids| && BelowDone(n0, n1, t, i, r, next) && r.Two?
    requires t.pid < |n1| && n2 == n1[t.pid := Internal(InsertKid(t, i, r).keys, Pids(InsertKid(t, i, r).kids))]
    ensures var t1 := InsertKid(t, i, r); Formed(t1) && Stored(n2, t1, next)
    ensures OnlyTree(n0, n2, t)
  {
    hide BelowDone, Stored, Owns;
    ParentPage(n0, n1, t, i, r, next);
    TreeGrows(n0, n1, n2, t, i);
    UpStored(n0, n1, n2, t, i, r, next, InsertKid(t, i, r));
  }

  lemma SplitParent(n0: seq<Node>, n1: seq<Node>, n2: seq<Node>, t: Tree, i: nat, r: Ins, next: int)
    requires t.TNode? && Formed(t) && i < |t.kids| && BelowDone(n0, n1, t, i, r, next) && r.Two?
    requires |t.keys| >= 1 && t.pid < |n1| && |n2| == |n1| + 1 && OnlyPage(n1, n2, t.pid)
    requires var t1 := InsertKid(t, i, r); var mid := |t1.keys| / 2; var c := Pids(t1.kids);
             && n2[t.pid] == Internal(t1.keys[..mid], c[..mid + 1])
             && n2[|n1|] == Internal(t1.keys[mid + 1..], c[mid + 1..])
    ensures var t1 := InsertKid(t, i, r); var u := SplitNode(t.pid, t1.keys, t1.kids, |n1|);
            InsFormed(u) && StoredIns(n2, u, next)
    ensures OnlyTree(n0, n2, t)
  {
    hide BelowDone, Stored, Owns, Pids, OnlyTree, OnlyPage;
    ParentPage(n0, n1, t, i, r, next);
    TreeGrows(n0, n1, n2, t, i);
    var t1 := InsertKid(t, i, r);
    PidsCut(t1.kids, |t1.keys| / 2 + 1);
    SplitStored(n0, n1, n2, t, i, r, next, t1);
  }

  lemma PidsCut(kids: seq<Tree>, m: nat)
    requires m <= |kids|
    ensures Pids(kids[..m]) == Pids(kids)[..m] && Pids(kids[m..]) == Pids(kids)[m..]
  {
  }

  /** The three ways an inner node's step ends, as what the whole call has inserted. */
  lemma ParentStays(n0: seq<Node>, n1: seq<Node>, t: Tree, i: nat, next: int, key: int, ptr: Ptr, m: nat)
    requires t.TNode? && Formed(t) && i == BisectRight(t.keys, key) && Unshared(t) && Stored(n0, t, next) && m >= 1
    requires var (r, next1) := InsertT(t.kids[i], key, ptr, |n0|, m);
             BelowDone(n0, n1, t, i, r, next) && |n1| == next1 && r.One?
    ensures Inserted(n0, n1, t, next, key, ptr, m, None)
  {
    hide BelowDone, Inserted, Stored, Unshared, InsertT, OnlyTree;
    KeptParent(n0, n1, t, i, InsertT(t.kids[i], key, ptr, |n0|, m).0, next);
    UpInserted(n0, n1, n1, t, i, next, key, ptr, m);
  }

  lemma ParentGrows(n0: seq<Node>, n1: seq<Node>, n2: seq<Node>, t: Tree, i: nat, next: int, key: int, ptr: Ptr, m: nat)
    requires t.TNode? && Formed(t) && i == BisectRight(t.keys, key) && Unshared(t) && Stored(n0, t, next) && m >= 1
    requires var (r, next1) := InsertT(t.kids[i], key, ptr, |n0|, m);
             && BelowDone(n0, n1, t, i, r, next) && |n1| == next1 && r.Two? && |t.keys| + 1 <= m && t.pid < |n1|
             && n2 == n1[t.pid := Internal(InsertKid(t, i, r).keys, Pids(InsertKid(t, i, r).kids))]
    ensures Inserted(n0, n2, t, next, key, ptr, m, None)
  {
    hide BelowDone, Inserted, Stored, Unshared, InsertT, OnlyTree;
    GrownParent(n0, n1, n2, t, i, InsertT(t.kids[i], key, ptr, |n0|, m).0, next);
    UpInserted(n0, n1, n2, t, i, next, key, ptr, m);
  }

  lemma ParentSplits(n0: seq<Node>, n1: seq<Node>, n2: seq<Node>, t: Tree, i: nat, next: int, key: int, ptr: Ptr, m: nat)
    requires t.TNode? && Formed(t) && i == BisectRight(t.keys, key) && Unshared(t) && Stored(n0, t, next) && m >= 1
    requires var (r, next1) := InsertT(t.kids[i], key, ptr, |n0|, m);
             && BelowDone(n0, n1, t, i, r, next) && |n1| == next1 && r.Two? && |t.keys| + 1 > m && t.pid < |n1|
    requires |n2| == |n1| + 1 && OnlyPage(n1, n2, t.pid)
    requires var r := InsertT(t.kids[i], key, ptr, |n0|, m).0;
             var t1 := InsertKid(t, i, r); var mid := |t1.keys| / 2; var c := Pids(t1.kids);
             && n2[t.pid] == Internal(t1.keys[..mid], c[..mid + 1])
             && n2[|n1|] == Internal(t1.keys[mid + 1..], c[mid + 1..])
    ensures var r := InsertT(t.kids[i], key, ptr, |n0|, m).0; var t1 := InsertKid(t, i, r);
            Inserted(n0, n2, t, next, key, ptr, m, Some((t1.keys[|t1.keys| / 2], |n1|)))
  {
    hide BelowDone, Inserted, Stored, Unshared, InsertT, OnlyTree;
    SplitParent(n0, n1, n2, t, i, InsertT(t.kids[i], key, ptr, |n0|, m).0, next);
    UpInserted(n0, n1, n2, t, i, next, key, ptr, m);
  }

  /** A new root over the two halves of the old one. */
  lemma RootSplit(n1: seq<Node>, n2: seq<Node>, r: Ins, t: Tree, n0: nat)
    requires Formed(t) && r.Two? && InsPages(r, t, n0, |n1|) && StoredIns(n1, r, NULL_PAGE) && Under(t, n0)
    requires n2 == n1 + [Internal([r.sep], [r.left.pid, r.right.pid])]
    ensures var t1 := TNode(|n1|, [r.sep], [r.left, r.right]);
            Formed(t1) && Stored(n2, t1, NULL_PAGE) && Unshared(t1)
  {
    var t1 := TNode(|n1|, [r.sep], [r.left, r.right]);
    hide InsPages;
    RootParts(r, t, n0, |n1|);
    StoredFrame(n1, n2, r.left, FirstLeaf(r.right));
    StoredFrame(n1, n2, r.right, NULL_PAGE);
    assert Pids(t1.kids) == [r.left.pid, r.right.pid];
  }

  lemma RootParts(r: Ins, t: Tree, n0: nat, n1: nat)
    requires Formed(t) && r.Two? && InsPages(r, t, n0, n1) && Under(t, n0)
    ensures Formed(r.left) && Formed(r.right) && Unshared(r.left) && Unshared(r.right)
    ensures Apart([r.left, r.right]) && !Owns(r.left, n1) && !Owns(r.right, n1)
  {
    assert !OwnsIns(r, n1);
  }

  lemma FirstKey(nodes: seq<Node>, pid: nat, key: int, ptr: Ptr, m: nat)
    requires pid < |nodes| && nodes[pid] == Leaf([key], [ptr], NULL_PAGE) && m >= 4
    ensures var t := TLeaf(pid, [key], [ptr]);
            TreeValid(nodes, t, m) && Formed(t) && EntriesOf(t) == Entries.Insert([], key, ptr) && Height(t) == 1
  {
  }

  lemma RootReady(nodes: seq<Node>, t: Tree, m: nat)
    requires TreeValid(nodes, t, m)
    ensures m >= 4 && Formed(t) && Stored(nodes, t, NULL_PAGE) && Unshared(t) && Shape(t, Height(t), m, true)
  {
  }

  /** The tree a completed insertion stores. */
  lemma RootInserted(n0: seq<Node>, n1: seq<Node>, n2: seq<Node>, t: Tree, key: int, ptr: Ptr, m: nat,
                     promotion: Option<(int, nat)>)
    requires TreeValid(n0, t, m) && Lookup(EntriesOf(t), key) == None
    requires Inserted(n0, n1, t, NULL_PAGE, key, ptr, m, promotion)
    requires n2 == if promotion.None? then n1
                   else n1 + [Internal([promotion.value.0], [t.pid, promotion.value.1])]
    ensures var (t1, next) := InsertRoot(t, key, ptr, |n0|, m);
            && |n2| == next && TreeValid(n2, t1, m) && EntriesOf(t1) == Entries.Insert(EntriesOf(t), key, ptr)
            && t1.pid == (if promotion.None? then t.pid else |n1|)
            && Height(t1) == Height(t) + if promotion.None? then 0 else 1
  {
    InsertRootInv(t, key, ptr, |n0|, Height(t), m);
    InsertShape(t, key, ptr, |n0|, Height(t), m, true);
    StoredUnder(n0, t, NULL_PAGE);
    var (r, next1) := InsertT(t, key, ptr, |n0|, m);
    var t1 := InsertRoot(t, key, ptr, |n0|, m).0;
    hide Ordered, Shape, Stored, Owns, InsPages, EntriesOf, Entries.Insert, Lookup, InsertT, Unshared, Under, Leaves;
    NewHeight(t1, Height(t), m);
    RootPid(r, t, |n0|, next1);
    if r.Two? {
      RootSplit(n1, n2, r, t, |n0|);
      ShapeHeight(r.left, Height(t), m, false);
    } else {
      ShapeHeight(r.t, Height(t), m, true);
    }
  }

  lemma RootPid(r: Ins, t: Tree, next: nat, next1: nat)
    requires Formed(t) && InsPages(r, t, next, next1)
    ensures InsFormed(r) && Left(r).pid == t.pid && UnsharedIns(r)
  {
  }

  lemma NewHeight(t: Tree, h: nat, m: nat)
    requires TreeInv(t, h, m) || TreeInv(t, h + 1, m)
    ensures TreeInv(t, Height(t), m)
  {
    hide Ordered;
    if TreeInv(t, h, m) {
      ShapeHeight(t, h, m, true);
    } else {
      ShapeHeight(t, h + 1, m, true);
    }
  }

  /** What deletion does to the stored tree, and when it does nothing. */
  lemma Deleted(nodes: seq<Node>, t: Tree, k: int, m: nat)
    requires TreeValid(nodes, t, m)
    ensures var l := LeafFor(t, k); var i := BisectLeft(l.keys, k); var found := i < |l.keys| && l.keys[i] == k;
            && l.pid < |nodes| && nodes[l.pid].Leaf? && |l.vals| == |l.keys|
            && (found <==> Lookup(EntriesOf(t), k).Some?)
            && (!found ==> DeleteT(t, k) == t)
    ensures TreeValid(LeafCut(nodes, t, k), DeleteT(t, k), m)
    ensures EntriesOf(DeleteT(t, k)) == Remove(EntriesOf(t), k)
  {
    hide Ordered, Shape, Stored, Unshared, Owns, EntriesOf, Lookup, Remove, BisectLeft;
    var l := LeafFor(t, k);
    LeafHasKey(t, None, None, k);
    DeleteStored(nodes, t, NULL_PAGE, k);
    DeleteInv(t, k, Height(t), m);
    ShapeHeight(DeleteT(t, k), Height(t), m, true);
    LeafLookup(l, k);
    if Lookup(EntriesOf(t), k).None? {
      DeleteAbsent(t, k);
    }
  }

  lemma LeafLoses(l: Tree, k: int)
    requires l.TLeaf? && Formed(l)
    ensures var i := BisectLeft(l.keys, k);
            i < |l.keys| && l.keys[i] == k ==>
              DeleteT(l, k) == TLeaf(l.pid, l.keys[..i] + l.keys[i + 1..], l.vals[..i] + l.vals[i + 1..])
  {
  }

  lemma LeafLookup(l: Tree, k: int)
    requires l.TLeaf? && Formed(l) && Increasing(l.keys)
    ensures var i := BisectLeft(l.keys, k); var found := i < |l.keys| && l.keys[i] == k;
            (found <==> Lookup(EntriesOf(l), k).Some?) && (!found ==> DeleteT(l, k) == l)
  {
    LeafFind(l.keys, l.vals, k);
  }

  // ---------------------------------------------------------------- steps of a range search

  lemma {:induction false} LeavesFlat(kids: seq<Tree>)
    requires forall i :: 0 <= i < |kids| ==> Formed(kids[i])
    ensures Flat(LeavesAll(kids)) == Flat(kids)
    decreases kids, 0
  {
    if kids != [] {
      TreeLeavesFlat(kids[0]);
      LeavesFlat(kids[1..]);
      FlatConcat(LeavesOf(kids[0]), LeavesAll(kids[1..]));
    }
  }

  lemma {:induction false} TreeLeavesFlat(t: Tree)
    requires Formed(t)
    ensures Flat(LeavesOf(t)) == EntriesOf(t)
    decreases t, 0
  {
    if t.TLeaf? {
      FlatOne(t);
    } else {
      LeavesFlat(t.kids);
    }
  }

  lemma {:induction false} LeavesConcat(a: seq<Tree>, b: seq<Tree>)
    requires forall i :: 0 <= i < |a| ==> Formed(a[i])
    requires forall i :: 0 <= i < |b| ==> Formed(b[i])
    ensures LeavesAll(a + b) == LeavesAll(a) + LeavesAll(b)
  {
    if a == [] {
      assert a + b == b;
    } else {
      assert (a + b)[1..] == a[1..] + b && (a + b)[0] == a[0];
      LeavesConcat(a[1..], b);
    }
  }

  lemma {:induction false} LeavesCount(t: Tree)
    requires Formed(t)
    ensures |LeavesOf(t)| == Leaves(t)
    decreases t, 0
  {
    if t.TNode? {
      LeavesCountAll(t.kids);
    }
  }

  lemma {:induction false} LeavesCountAll(kids: seq<Tree>)
    requires forall i :: 0 <= i < |kids| ==> Formed(kids[i])
    ensures |LeavesAll(kids)| == SumLeaves(kids)
    decreases kids, 0
  {
    if kids != [] {
      LeavesCount(kids[0]);
      LeavesCountAll(kids[1..]);
    }
  }

  /** The leaves of the current subtree start at position j, and every key before them is below `low`. */
  ghost predicate LeavesAt(ls: seq<Tree>, j: nat, cur: Tree, low: int)
    requires Formed(cur)
  {
    && (forall i :: 0 <= i < |ls| ==> Formed(ls[i]))
    && j + |LeavesOf(cur)| <= |ls| && ls[j..j + |LeavesOf(cur)|] == LeavesOf(cur)
    && AllBelow(Flat(ls[..j]), low)
  }

  /** The leaves read, from the one where `low` belongs. */
  ghost predicate ReadFrom(t: Tree, low: int, high: int, read: nat)
    requires Formed(t)
  {
    exists j :: 0 <= j < |LeavesOf(t)| && LeavesOf(t)[j] == LeafFor(t, low) && read == LeavesRead(LeavesOf(t), j, low, high)
  }

  ghost predicate AtRange(ls: seq<Tree>, j: nat, cur: Tree, low: int, lo: Bound, hi: Bound) {
    Formed(cur) && Ordered(cur, lo, hi) && Within(lo, low, hi) && LeavesAt(ls, j, cur, low)
  }

  lemma AllLeaves(t: Tree, low: int)
    requires Formed(t) && Ordered(t, None, None)
    ensures AtRange(LeavesOf(t), 0, t, low, None, None)
  {
    var ls := LeavesOf(t);
    assert ls[0..0 + |ls|] == ls && ls[..0] == [];
  }

  /** The leaves of child i within those of its parent. */
  lemma KidLeaves(cur: Tree, i: nat)
    requires cur.TNode? && Formed(cur) && i < |cur.kids|
    ensures var before := |LeavesAll(cur.kids[..i])|; var n := |LeavesOf(cur.kids[i])|;
            && before + n <= |LeavesOf(cur)|
            && LeavesOf(cur)[..before] == LeavesAll(cur.kids[..i])
            && LeavesOf(cur)[before..before + n] == LeavesOf(cur.kids[i])
  {
    var a, b := cur.kids[..i], cur.kids[i..];
    assert cur.kids == a + b && b[0] == cur.kids[i];
    LeavesConcat(a, b);
    assert LeavesAll(b) == LeavesOf(b[0]) + LeavesAll(b[1..]);
  }

  lemma BelowFlat(a: seq<Tree>, b: seq<Tree>, k: int)
    requires forall i :: 0 <= i < |a| ==> Formed(a[i])
    requires forall i :: 0 <= i < |b| ==> Formed(b[i])
    requires AllBelow(Flat(a), k) && AllBelow(Flat(b), k)
    ensures AllBelow(Flat(a + b), k)
  {
    hide Flat;
    FlatConcat(a, b);
  }

  lemma DescendLeaves(ls: seq<Tree>, j: nat, cur: Tree, low: int, lo: Bound, hi: Bound) returns (j1: nat)
    requires cur.TNode? && AtRange(ls, j, cur, low, lo, hi)
    ensures var i := BisectRight(cur.keys, low);
            && Formed(cur) && i < |cur.kids|
            && AtRange(ls, j1, cur.kids[i], low, Lo(lo, cur.keys, i), Hi(hi, cur.keys, i))
  {
    var i := BisectRight(cur.keys, low);
    Route(cur, lo, hi, low);
    UnpackNode(cur, lo, hi);
    hide Ordered, BisectRight, AllAbove, AllBelow, EntriesOf, Flat, Within, Lo, Hi, LeavesAt;
    j1 := DescendTo(ls, j, cur, low, i);
  }

  lemma DescendTo(ls: seq<Tree>, j: nat, cur: Tree, low: int, i: nat) returns (j1: nat)
    requires cur.TNode? && Formed(cur) && LeavesAt(ls, j, cur, low) && i < |cur.kids|
    requires AllBelow(Flat(cur.kids[..i]), low)
    ensures LeavesAt(ls, j1, cur.kids[i], low)
  {
    hide Zip, Lookup, AllBelow, EntriesOf, Flat, LeavesOf, LeavesAll, Formed;
    KidsFormed(cur);
    var a, mine := cur.kids[..i], LeavesOf(cur);
    KidLeaves(cur, i);
    var before, n := |LeavesAll(a)|, |LeavesOf(cur.kids[i])|;
    j1 := j + before;
    Subslices(ls, j, mine, before, n);
    LeavesFlat(a);
    BelowFlat(ls[..j], LeavesAll(a), low);
  }

  lemma KidsFormed(t: Tree)
    requires t.TNode? && Formed(t)
    ensures forall i :: 0 <= i < |t.kids| ==> Formed(t.kids[i])
  {
  }

  lemma Subslices<T>(ls: seq<T>, j: nat, mine: seq<T>, x: nat, n: nat)
    requires j + |mine| <= |ls| && ls[j..j + |mine|] == mine && x + n <= |mine|
    ensures ls[..j + x] == ls[..j] + mine[..x] && ls[j + x..j + x + n] == mine[x..x + n]
  {
    forall i | 0 <= i < |mine| ensures ls[j + i] == mine[i] {
      assert ls[j..j + |mine|][i] == mine[i];
    }
  }

  /** A key of the leaf ends the walk. */
  predicate Stops(l: Tree, low: int, high: int) {
    exists i :: 0 <= i < |l.keys| && l.keys[i] >= low && l.keys[i] > high
  }

  /** How many leaves a walk from leaf j reads: up to the first that ends it, or all. */
  function LeavesRead(ls: seq<Tree>, j: nat, low: int, high: int): nat
    requires j <= |ls|
    decreases |ls| - j
  {
    if j == |ls| then 0 else if Stops(ls[j], low, high) then 1 else 1 + LeavesRead(ls, j + 1, low, high)
  }

  /** The walk from leaf `from` has collected the hits of the leaves before j and is about to read leaf j, if there is one. */
  ghost predicate OnWalk(nodes: seq<Node>, ls: seq<Tree>, from: nat, j: nat, pid: int, low: int, high: int,
                         results: seq<Ptr>, scanned: nat) {
    && j <= |ls| && (forall i :: 0 <= i < |ls| ==> Formed(ls[i]) && ls[i].TLeaf?)
    && Chain(nodes, ls, NULL_PAGE) && pid == (if j < |ls| then ls[j].pid else NULL_PAGE)
    && results == Range(Flat(ls[..j]), low, high) && scanned <= j && (scanned == 0 ==> j < |ls|)
    && from <= |ls| && scanned + LeavesRead(ls, j, low, high) == LeavesRead(ls, from, low, high)
  }

  lemma StartOfWalk(nodes: seq<Node>, t: Tree, ls: seq<Tree>, j: nat, cur: Tree, low: int, high: int, lo: Bound, hi: Bound)
    requires Formed(t) && Stored(nodes, t, NULL_PAGE) && ls == LeavesOf(t)
    requires cur.TLeaf? && AtRange(ls, j, cur, low, lo, hi)
    ensures OnWalk(nodes, ls, j, j, cur.pid, low, high, [], 0) && j < |ls| && ls[j] == cur
  {
    StoredChain(nodes, t, NULL_PAGE);
    assert LeavesOf(cur) == [cur];
    assert ls[j..j + 1][0] == ls[j];
    RangeNothing(Flat(ls[..j]), low, high);
  }

  lemma WalkPage(nodes: seq<Node>, t: Tree, ls: seq<Tree>, from: nat, j: nat, pid: int, low: int, high: int,
                 results: seq<Ptr>, scanned: nat)
    requires OnWalk(nodes, ls, from, j, pid, low, high, results, scanned) && pid != NULL_PAGE
    requires Formed(t) && Ordered(t, None, None) && ls == LeavesOf(t)
    ensures 0 <= pid < |nodes| && j < |ls| && ls[j].TLeaf? && |ls[j].keys| == |ls[j].vals| && Increasing(ls[j].keys)
    ensures nodes[pid] == Leaf(ls[j].keys, ls[j].vals, if j + 1 < |ls| then ls[j + 1].pid else NULL_PAGE)
  {
    assert Linked(nodes, ls, j, NULL_PAGE);
    LeafParts(t, ls, j);
  }

  /** After leaf j: on to leaf j + 1, or done because the rest is past `high`. */
  lemma WalkOn(nodes: seq<Node>, t: Tree, ls: seq<Tree>, from: nat, j: nat, pid: int, low: int, high: int,
               results: seq<Ptr>, scanned: nat, done: bool)
    requires OnWalk(nodes, ls, from, j, pid, low, high, results, scanned) && pid != NULL_PAGE
    requires Formed(t) && Ordered(t, None, None) && ls == LeavesOf(t)
    requires j < |ls| && ls[j].TLeaf? && |ls[j].keys| == |ls[j].vals| && Increasing(ls[j].keys)
    requires done <==> Stops(ls[j], low, high)
    ensures var results1 := results + Range(Zip(ls[j].keys, ls[j].vals), low, high);
            if done then from <= |ls| && results1 == Range(EntriesOf(t), low, high) && scanned + 1 == LeavesRead(ls, from, low, high)
            else OnWalk(nodes, ls, from, j + 1, if j + 1 < |ls| then ls[j + 1].pid else NULL_PAGE, low, high, results1, scanned + 1)
  {
    hide Ordered, Chain, Flat, Range, LeavesOf;
    NextLeaf(ls, j, low, high);
    if done {
      StopsLast(ls[j], low, high);
      RestAbove(t, ls, j, low, high);
      AllHits(t, ls, j + 1, low, high);
    }
  }

  lemma AllHits(t: Tree, ls: seq<Tree>, j: nat, low: int, high: int)
    requires Formed(t) && ls == LeavesOf(t) && j <= |ls|
    requires Range(Flat(ls[j..]), low, high) == []
    ensures Range(Flat(ls[..j]), low, high) == Range(EntriesOf(t), low, high)
  {
    hide LeavesOf, Flat, Range, EntriesOf, Formed;
    TreeLeavesFlat(t);
    assert ls == ls[..j] + ls[j..];
    FlatConcat(ls[..j], ls[j..]);
    RangeConcat(Flat(ls[..j]), Flat(ls[j..]), low, high);
  }

  /** At least one leaf is read, and none twice. */
  lemma ReadBound(t: Tree, low: int, high: int, from: nat, read: nat)
    requires Formed(t) && from < |LeavesOf(t)| && read == LeavesRead(LeavesOf(t), from, low, high)
    ensures 1 <= read <= Leaves(t)
  {
    LeavesCount(t);
    ReadAtMost(LeavesOf(t), from, low, high);
  }

  lemma {:induction false} ReadAtMost(ls: seq<Tree>, j: nat, low: int, high: int)
    requires j <= |ls|
    ensures LeavesRead(ls, j, low, high) <= |ls| - j
    decreases |ls| - j
  {
    if j < |ls| {
      ReadAtMost(ls, j + 1, low, high);
    }
  }

  lemma StopsLast(l: Tree, low: int, high: int)
    requires Increasing(l.keys) && Stops(l, low, high)
    ensures l.keys != [] && l.keys[|l.keys| - 1] > high
  {
    var i :| 0 <= i < |l.keys| && l.keys[i] >= low && l.keys[i] > high;
    assert i < |l.keys| - 1 ==> l.keys[i] < l.keys[|l.keys| - 1];
  }

  lemma EndOfWalk(nodes: seq<Node>, t: Tree, ls: seq<Tree>, from: nat, j: nat, low: int, high: int, results: seq<Ptr>, scanned: nat)
    requires OnWalk(nodes, ls, from, j, NULL_PAGE, low, high, results, scanned) && Formed(t) && ls == LeavesOf(t)
    ensures results == Range(EntriesOf(t), low, high) && from <= |ls| && scanned == LeavesRead(ls, from, low, high)
  {
    assert ls[j..] == [];
    AllHits(t, ls, j, low, high);
  }

  /** The entries before, in and after leaf j. */
  lemma LeafParts(t: Tree, ls: seq<Tree>, j: nat)
    requires Formed(t) && Ordered(t, None, None) && ls == LeavesOf(t) && j < |ls|
    ensures var es := Flat(ls[..j]) + Zip(ls[j].keys, ls[j].vals) + Flat(ls[j + 1..]);
            EntriesOf(t) == es && Sorted(es) && Increasing(ls[j].keys)
  {
    hide Ordered, Flat, LeavesOf, Sorted, Zip;
    TreeLeavesFlat(t);
    FlatSplit(ls, j);
    TreeSorted(t, None, None);
    LeafEntries(ls[j]);
    MiddleIncreasing(Flat(ls[..j]), ls[j].keys, ls[j].vals, Flat(ls[j + 1..]));
  }

  lemma LeafEntries(l: Tree)
    requires l.TLeaf? && Formed(l)
    ensures EntriesOf(l) == Zip(l.keys, l.vals)
  {
  }

  lemma MiddleIncreasing(a: seq<Entry>, keys: seq<int>, vals: seq<Ptr>, c: seq<Entry>)
    requires |keys| == |vals| && Sorted(a + Zip(keys, vals) + c)
    ensures Increasing(keys)
  {
    var z := Zip(keys, vals);
    var es := a + z + c;
    forall x, y | 0 <= x < y < |z| ensures keys[x] < keys[y] {
      assert es[|a| + x] == z[x] && es[|a| + y] == z[y];
    }
  }

  lemma NextLeaf(ls: seq<Tree>, j: nat, low: int, high: int)
    requires j < |ls| && (forall i :: 0 <= i < |ls| ==> Formed(ls[i])) && ls[j].TLeaf?
    ensures Range(Flat(ls[..j + 1]), low, high)
         == Range(Flat(ls[..j]), low, high) + Range(Zip(ls[j].keys, ls[j].vals), low, high)
  {
    assert ls[..j + 1] == ls[..j] + [ls[j]];
    FlatConcat(ls[..j], [ls[j]]);
    FlatOne(ls[j]);
    RangeConcat(Flat(ls[..j]), EntriesOf(ls[j]), low, high);
  }

  /** Once a key of leaf j is past `high`, the later leaves have no hits. */
  lemma RestAbove(t: Tree, ls: seq<Tree>, j: nat, low: int, high: int)
    requires Formed(t) && Ordered(t, None, None) && ls == LeavesOf(t) && j < |ls|
    requires ls[j].keys != [] && ls[j].keys[|ls[j].keys| - 1] > high
    ensures Range(Flat(ls[j + 1..]), low, high) == []
  {
    LeafParts(t, ls, j);
    var a, z, rest := Flat(ls[..j]), Zip(ls[j].keys, ls[j].vals), Flat(ls[j + 1..]);
    var es := a + z + rest;
    forall i | 0 <= i < |rest| ensures rest[i].key > high {
      assert es[|a| + |z| - 1] == z[|z| - 1] && es[|a| + |z| + i] == rest[i];
    }
    RangeNothing(rest, low, high);
  }

  class BPlusTree {
    const pageSize: nat
    const keySize: nat
    const maxKeys: nat
    var nodes: seq<Node>
    ghost var tree: Option<Tree>

    /** Every node that was written fits its page. */
    predicate Sized()
      reads this
    {
      && pageSize >= HEADER_SIZE && keySize > 0 && maxKeys == MaxKeys(pageSize, keySize)
      && AllFit(pageSize, keySize, nodes)
    }

    /** The pages hold a B+ tree under page `root`, or nothing has been inserted yet; only on roomy pages has it
        inner nodes. */
    ghost predicate Valid(root: int)
      reads this
    {
      && Sized()
      && match tree
         case None => root == NULL_PAGE
         case Some(t) => root == t.pid && TreeValid(nodes, t, maxKeys) && (t.TNode? ==> Roomy(pageSize, keySize))
    }

    ghost function Content(): seq<Entry>
      reads this
      requires tree.Some? ==> Formed(tree.value)
    {
      if tree.None? then [] else EntriesOf(tree.value)
    }

    constructor (pageSize: nat, keySize: nat)
      requires keySize > 0 && pageSize >= HEADER_SIZE
      ensures this.pageSize == pageSize && this.keySize == keySize
      ensures Valid(NULL_PAGE) && Content() == []
    {
      this.pageSize, this.keySize := pageSize, keySize;
      maxKeys := MaxKeys(pageSize, keySize);
      nodes := [];
      tree := None;
    }

    /** Reserve a page and write an empty node to it. */
    method AllocNode(empty: Node) returns (pid: nat)
      requires Sized() && empty.keys == [] && (empty.Internal? ==> Roomy(pageSize, keySize))
      modifies this`nodes
      ensures Sized() && pid == old(|nodes|) && nodes == old(nodes) + [empty]
    {
      pid := |nodes|;
      nodes := nodes + [empty];
    }

    /** The buffer manager refuses a page that has become too long. */
    method WriteNode(pid: nat, node: Node) returns (ok: bool)
      requires pid < |nodes| && Sized()
      modifies this`nodes
      ensures Sized() && (ok <==> Fits(pageSize, keySize, node))
      ensures nodes == if ok then old(nodes)[pid := node] else old(nodes)
    {
      hide Fits;
      ok := Fits(pageSize, keySize, node);
      if ok {
        nodes := nodes[pid := node];
      }
    }

    /** `build_empty`: an empty leaf as the root. */
    method BuildEmpty() returns (root: nat)
      requires Valid(NULL_PAGE)
      modifies this
      ensures Valid(root) && Content() == [] && tree == Some(TLeaf(root, [], []))
    {
      root := AllocNode(Leaf([], [], NULL_PAGE));
      tree := Some(TLeaf(root, [], []));
    }

    /** Exact lookup: the pointer of the key, or (-1, -1). */
    method Search(root: int, key: int) returns (ptr: Ptr, visited: nat)
      requires Valid(root)
      ensures Valid(root) && ptr == Found(Lookup(Content(), key))
      ensures visited == if tree.None? then 0 else Height(tree.value)
    {
      hide AtNode, TreeValid, Height, LeafFor, BisectLeft, BisectRight, EntriesOf, Lookup, Formed;
      visited := 0;
      if root == NULL_PAGE {
        NoEntries(key);
        return Ptr(-1, -1), 0;
      }
      var pid := root;
      ghost var t := tree.value;
      ghost var cur, next := t, NULL_PAGE;
      AtRoot(nodes, t, key, maxKeys);
      while true
        invariant AtNode(nodes, t, key, maxKeys, cur, next, pid, visited)
        decreases cur
      {
        AtPage(nodes, t, key, maxKeys, cur, next, pid, visited);
        visited := visited + 1;
        match nodes[pid]
        case Leaf(keys, vals, _) =>
          AtLeaf(nodes, t, key, maxKeys, cur, next, pid, visited - 1);
          LeafAnswers(nodes, t, key, maxKeys);
          var idx := BisectLeft(keys, key);
          if idx < |keys| && keys[idx] == key {
            return vals[idx], visited;
          }
          return Ptr(-1, -1), visited;
        case Internal(keys, children) =>
          AtInner(nodes, t, key, maxKeys, cur, next, pid, visited - 1);
          var i := BisectRight(keys, key);
          pid := children[i];
          cur, next := cur.kids[i], NextOf(cur.kids, i, next);
      }
    }

    /** The leaf where the key belongs takes one more entry. */
    ghost predicate HasRoom(key: int)
      reads this
      requires keySize > 0 && (tree.Some? ==> Formed(tree.value))
    {
      LeafRoom(pageSize, keySize, if tree.None? then 0 else |LeafFor(tree.value, key).keys|)
    }

    /** Insertion of a key that is not in the tree; gives the new root page. It fails, and changes nothing that is
        stored, exactly when the leaf has no room. */
    method Insert(root: int, key: int, ptr: Ptr) returns (ok: bool, newRoot: int, visited: nat)
      requires Valid(root) && Lookup(Content(), key) == None
      modifies this
      ensures Valid(newRoot) && (ok <==> old(HasRoom(key)))
      ensures ok ==> Content() == Entries.Insert(old(Content()), key, ptr) && visited == Height(tree.value)
      ensures ok && old(tree).Some? ==>
                (tree.value, |nodes|) == InsertRoot(old(tree).value, key, ptr, old(|nodes|), maxKeys)
      ensures ok && old(tree).None? ==> tree == Some(TLeaf(old(|nodes|), [key], [ptr])) && |nodes| == old(|nodes|) + 1
      ensures !ok ==> newRoot == root && tree == old(tree) && old(nodes) <= nodes
    {
      hide Inserted, TreeValid, EntriesOf, Lookup, Entries.Insert, Height, InsertRoot, InsertT, Formed, MaxKeys, AllFit, Fits, Roomy,
           LeafRoom, LeafFor;
      ghost var n0 := nodes;
      MaxKeysBound(pageSize, keySize);
      if root == NULL_PAGE {
        newRoot := AllocNode(Leaf([], [], NULL_PAGE));
        ok := WriteNode(newRoot, Leaf([key], [ptr], NULL_PAGE));
        FirstFits(pageSize, keySize, key, ptr);
        if !ok {
          return false, root, 0;
        }
        tree := Some(TLeaf(newRoot, [key], [ptr]));
        visited := 1;
        FirstKey(nodes, newRoot, key, ptr, maxKeys);
        return;
      }
      ghost var t := tree.value;
      RootReady(nodes, t, maxKeys);
      var promotion;
      ok, promotion, visited := InsertRecursive(t, NULL_PAGE, Height(t), true, root, key, ptr);
      if !ok {
        return false, root, visited;
      }
      ghost var n1 := nodes;
      tree := Some(InsertRoot(t, key, ptr, |n0|, maxKeys).0);
      newRoot := root;
      if promotion.Some? {
        newRoot := AllocNode(Internal([], [0]));
        RoomyFits(pageSize, keySize, Internal([promotion.value.0], [root, promotion.value.1]));
        var done := WriteNode(newRoot, Internal([promotion.value.0], [root, promotion.value.1]));
        assert done;
        visited := visited + 1;
      }
      RootInserted(n0, n1, nodes, t, key, ptr, maxKeys, promotion);
      RootKind(n0, n1, t, key, ptr, maxKeys, promotion);
    }

    /** It fails before it has written anything. */
    method InsertRecursive(ghost t: Tree, ghost next: int, ghost h: nat, ghost isRoot: bool, pid: nat, key: int, ptr: Ptr)
      returns (ok: bool, promotion: Option<(int, nat)>, visited: nat)
      requires Sized() && (t.TNode? ==> Roomy(pageSize, keySize))
      requires Formed(t) && Stored(nodes, t, next) && Unshared(t) && pid == t.pid
      requires Shape(t, h, maxKeys, isRoot)
      modifies this`nodes
      ensures Sized() && (ok <==> LeafRoom(pageSize, keySize, |LeafFor(t, key).keys|))
      ensures ok ==> Inserted(old(nodes), nodes, t, next, key, ptr, maxKeys, promotion) && visited == h
      ensures ok && promotion.Some? ==> Roomy(pageSize, keySize)
      ensures !ok ==> nodes == old(nodes)
      decreases t
    {
      hide Inserted, InsPages, Owns, OnlyTree, BisectRight, MaxKeys, AllFit, Fits, Roomy, LeafRoom;
      ghost var n0 := nodes;
      match nodes[pid]
      case Leaf(keys, vals, after) =>
        ok, promotion := InsertIntoLeaf(t, pid, keys, vals, after, key, ptr);
        visited := 1;
      case Internal(keys, children) =>
        var i := BisectRight(keys, key);
        var below;
        ok, below, visited := InsertRecursive(t.kids[i], NextOf(t.kids, i, next), h - 1, false, children[i], key, ptr);
        if !ok {
          return false, None, visited;
        }
        visited := visited + 1;
        promotion := PromoteInto(n0, t, next, pid, keys, children, i, key, ptr, below);
    }

    method InsertIntoLeaf(ghost t: Tree, pid: nat, keys0: seq<int>, vals0: seq<Ptr>, after: int, key: int, ptr: Ptr)
      returns (ok: bool, promotion: Option<(int, nat)>)
      requires Sized() && t == TLeaf(pid, keys0, vals0) && Formed(t) && Stored(nodes, t, after) && |keys0| <= maxKeys
      modifies this`nodes
      ensures Sized() && (ok <==> LeafRoom(pageSize, keySize, |keys0|))
      ensures ok ==> Inserted(old(nodes), nodes, t, after, key, ptr, maxKeys, promotion)
      ensures ok && promotion.Some? ==> Roomy(pageSize, keySize)
      ensures !ok ==> nodes == old(nodes)
    {
      hide Inserted, BisectLeft, MaxKeys, AllFit, Roomy;
      ghost var n0 := nodes;
      var pos := BisectLeft(keys0, key);
      var keys := keys0[..pos] + [key] + keys0[pos..];
      var vals := vals0[..pos] + [ptr] + vals0[pos..];
      MaxKeysBound(pageSize, keySize);
      if |keys| <= maxKeys {
        ok := WriteNode(pid, Leaf(keys, vals, after));
        if ok {
          LeafStays(n0, nodes, t, after, key, ptr, maxKeys);
        }
        return ok, None;
      }
      StoredFits(n0, t, after, pageSize, keySize);
      FullLeafRoomy(pageSize, keySize, keys0, vals0, after);
      promotion := SplitLeafPage(pid, keys, vals, after);
      LeafSplits(n0, nodes, t, after, key, ptr, maxKeys);
      ok := true;
    }

    /** What a node does with the outcome of the insertion below its child i. */
    method PromoteInto(ghost n0: seq<Node>, ghost t: Tree, ghost next: int, pid: nat, keys0: seq<int>, children0: seq<nat>,
                       i: nat, ghost key: int, ghost ptr: Ptr, below: Option<(int, nat)>)
      returns (promotion: Option<(int, nat)>)
      requires Sized() && Roomy(pageSize, keySize) && |keys0| <= maxKeys
      requires t.TNode? && Formed(t) && Stored(n0, t, next) && Unshared(t)
      requires pid == t.pid && keys0 == t.keys && children0 == Pids(t.kids) && i == BisectRight(keys0, key)
      requires Inserted(n0, nodes, t.kids[i], NextOf(t.kids, i, next), key, ptr, maxKeys, below)
      modifies this`nodes
      ensures Sized() && Inserted(n0, nodes, t, next, key, ptr, maxKeys, promotion)
    {
      hide Inserted, BisectRight, Stored, Unshared, BelowDone, InsertT, OnlyTree, MaxKeys, AllFit, Fits, Roomy;
      MaxKeysBound(pageSize, keySize);
      ghost var n1, r := nodes, InsertT(t.kids[i], key, ptr, |n0|, maxKeys).0;
      BelowInserted(n0, n1, t, i, next, key, ptr, maxKeys, below);
      ParentPage(n0, n1, t, i, r, next);
      if below.None? {
        ParentStays(n0, n1, t, i, next, key, ptr, maxKeys);
        return None;
      }
      var keys := keys0[..i] + [below.value.0] + keys0[i..];
      var children := children0[..i + 1] + [below.value.1] + children0[i + 1..];
      GrownChildren(t, i, r);
      if |keys| <= maxKeys {
        RoomyFits(pageSize, keySize, Internal(keys, children));
        var done := WriteNode(pid, Internal(keys, children));
        assert done;
        ParentGrows(n0, n1, nodes, t, i, next, key, ptr, maxKeys);
        return None;
      }
      promotion := SplitInternalPage(pid, keys, children);
      ParentSplits(n0, n1, nodes, t, i, next, key, ptr, maxKeys);
    }

    /** Both halves fit, since only full leaves are split. */
    method SplitLeafPage(pid: nat, keys: seq<int>, vals: seq<Ptr>, after: int) returns (promotion: Option<(int, nat)>)
      requires Sized() && Roomy(pageSize, keySize) && |keys| <= maxKeys + 1
      requires |keys| == |vals| >= 2 && pid < |nodes|
      modifies this`nodes
      ensures Sized()
      ensures var u := SplitLeaf(pid, keys, vals, old(|nodes|));
              && promotion == Promotion(u) && |nodes| == old(|nodes|) + 1 && OnlyPage(old(nodes), nodes, pid)
              && nodes[pid] == Leaf(u.left.keys, u.left.vals, u.right.pid)
              && nodes[u.right.pid] == Leaf(u.right.keys, u.right.vals, after)
    {
      hide MaxKeys, AllFit, Fits, Roomy;
      var mid := (|keys| + 1) / 2;
      var newPid := AllocNode(Leaf([], [], NULL_PAGE));
      RoomyFits(pageSize, keySize, Leaf(keys[..mid], vals[..mid], newPid));
      RoomyFits(pageSize, keySize, Leaf(keys[mid..], vals[mid..], after));
      var lower := WriteNode(pid, Leaf(keys[..mid], vals[..mid], newPid));
      var upper := WriteNode(newPid, Leaf(keys[mid..], vals[mid..], after));
      assert lower && upper;
      promotion := Some((keys[mid..][0], newPid));
    }

    method SplitInternalPage(pid: nat, keys: seq<int>, children: seq<nat>) returns (promotion: Option<(int, nat)>)
      requires Sized() && Roomy(pageSize, keySize) && |keys| <= maxKeys + 1
      requires |children| == |keys| + 1 && |keys| >= 2 && pid < |nodes|
      modifies this`nodes
      ensures Sized()
      ensures var mid := |keys| / 2;
              && promotion == Some((keys[mid], old(|nodes|)))
              && |nodes| == old(|nodes|) + 1 && OnlyPage(old(nodes), nodes, pid)
              && nodes[pid] == Internal(keys[..mid], children[..mid + 1])
              && nodes[old(|nodes|)] == Internal(keys[mid + 1..], children[mid + 1..])
    {
      hide MaxKeys, AllFit, Fits, Roomy;
      var mid := |keys| / 2;
      var newPid := AllocNode(Internal([], [0]));
      RoomyFits(pageSize, keySize, Internal(keys[..mid], children[..mid + 1]));
      RoomyFits(pageSize, keySize, Internal(keys[mid + 1..], children[mid + 1..]));
      var lower := WriteNode(pid, Internal(keys[..mid], children[..mid + 1]));
      var upper := WriteNode(newPid, Internal(keys[mid + 1..], children[mid + 1..]));
      assert lower && upper;
      promotion := Some((keys[mid], newPid));
    }

    /** Lazy deletion: the leaf loses the key, the shape stays. */
    method Delete(root: int, key: int) returns (wasPresent: bool, visited: nat)
      requires Valid(root)
      modifies this
      ensures Valid(root) && Content() == Remove(old(Content()), key)
      ensures wasPresent <==> Lookup(old(Content()), key).Some?
      ensures visited == if old(tree).None? then 0 else Height(old(tree).value)
      ensures |nodes| == old(|nodes|)
      ensures tree == if old(tree).None? then None else Some(DeleteT(old(tree).value, key))
    {
      hide AtNode, TreeValid, Height, LeafFor, BisectLeft, BisectRight, EntriesOf, Lookup, Remove, DeleteT, Formed;
      visited := 0;
      if root == NULL_PAGE {
        NoEntries(key);
        return false, 0;
      }
      var pid := root;
      ghost var t := tree.value;
      ghost var cur, next := t, NULL_PAGE;
      AtRoot(nodes, t, key, maxKeys);
      while true
        invariant nodes == old(nodes) && tree == Some(t)
        invariant AtNode(nodes, t, key, maxKeys, cur, next, pid, visited)
        decreases cur
      {
        AtPage(nodes, t, key, maxKeys, cur, next, pid, visited);
        visited := visited + 1;
        match nodes[pid]
        case Leaf(keys, vals, after) =>
          AtLeaf(nodes, t, key, maxKeys, cur, next, pid, visited - 1);
          Deleted(nodes, t, key, maxKeys);
          var idx := BisectLeft(keys, key);
          if idx >= |keys| || keys[idx] != key {
            return false, visited;
          }
          tree := Some(DeleteT(t, key));
          LeafLoses(cur, key);
          ShorterFits(nodes, pid, idx, pageSize, keySize);
          var done := WriteNode(pid, Leaf(keys[..idx] + keys[idx + 1..], vals[..idx] + vals[idx + 1..], after));
          assert done && nodes == LeafCut(old(nodes), t, key);
          return true, visited;
        case Internal(keys, children) =>
          AtInner(nodes, t, key, maxKeys, cur, next, pid, visited - 1);
          var i := BisectRight(keys, key);
          pid := children[i];
          cur, next := cur.kids[i], NextOf(cur.kids, i, next);
      }
    }

    /** The pointers of all keys in [low, high], in key order. */
    method RangeSearch(root: int, low: int, high: int) returns (results: seq<Ptr>, leavesScanned: nat, visited: nat)
      requires Valid(root)
      ensures results == Range(Content(), low, high)
      ensures visited == if tree.None? then 0 else Height(tree.value)
      ensures tree.None? ==> leavesScanned == 0
      ensures tree.Some? ==> ReadFrom(tree.value, low, high, leavesScanned) && 1 <= leavesScanned <= Leaves(tree.value)
    {
      hide AtNode, AtRange, OnWalk, Height, LeafFor, BisectRight, EntriesOf, Formed, Leaves, Range, Flat, Stored, Ordered, Shape, Unshared;
      visited, results, leavesScanned := 0, [], 0;
      if root == NULL_PAGE {
        RangeNothing([], low, high);
        return;
      }
      var pid := root;
      ghost var t := tree.value;
      ghost var ls := LeavesOf(t);
      ghost var cur, next, lo, hi, j: nat := t, NULL_PAGE, None, None, 0;
      AtRoot(nodes, t, low, maxKeys);
      AllLeaves(t, low);
      while true
        invariant AtNode(nodes, t, low, maxKeys, cur, next, pid, visited)
        invariant AtRange(ls, j, cur, low, lo, hi)
        decreases cur
      {
        AtPage(nodes, t, low, maxKeys, cur, next, pid, visited);
        visited := visited + 1;
        match nodes[pid]
        case Leaf(_, _, _) =>
          AtLeaf(nodes, t, low, maxKeys, cur, next, pid, visited - 1);
          break;
        case Internal(keys, children) =>
          AtInner(nodes, t, low, maxKeys, cur, next, pid, visited - 1);
          var i := BisectRight(keys, low);
          j := DescendLeaves(ls, j, cur, low, lo, hi);
          lo, hi := Lo(lo, keys, i), Hi(hi, keys, i);
          pid := children[i];
          cur, next := cur.kids[i], NextOf(cur.kids, i, next);
      }
      StartOfWalk(nodes, t, ls, j, cur, low, high, lo, hi);
      ghost var from := j;
      while pid != NULL_PAGE
        invariant OnWalk(nodes, ls, from, j, pid, low, high, results, leavesScanned)
        decreases |ls| - j
      {
        WalkPage(nodes, t, ls, from, j, pid, low, high, results, leavesScanned);
        leavesScanned := leavesScanned + 1;
        match nodes[pid]
        case Leaf(keys, vals, after) =>
          var hits, done := ScanLeaf(keys, vals, low, high);
          WalkOn(nodes, t, ls, from, j, pid, low, high, results, leavesScanned - 1, done);
          results := results + hits;
          if done {
            ReadBound(t, low, high, from, leavesScanned);
            return;
          }
          j, pid := j + 1, after;
      }
      EndOfWalk(nodes, t, ls, from, j, low, high, results, leavesScanned);
      ReadBound(t, low, high, from, leavesScanned);
    }
  }

  /** The root becomes an inner node only by a split. */
  lemma RootKind(n0: seq<Node>, n1: seq<Node>, t: Tree, key: int, ptr: Ptr, m: nat, promotion: Option<(int, nat)>)
    requires Formed(t) && m >= 1 && Inserted(n0, n1, t, NULL_PAGE, key, ptr, m, promotion)
    ensures InsertRoot(t, key, ptr, |n0|, m).0.TNode? ==> t.TNode? || promotion.Some?
  {
    hide InsPages, StoredIns, OnlyTree, Formed, InsertUp;
  }

  lemma MaxKeysBound(pageSize: nat, keySize: nat)
    requires keySize > 0
    ensures 4 <= MaxKeys(pageSize, keySize) <= HARD_FANOUT_CAP
  {
  }

  lemma FirstFits(pageSize: nat, keySize: nat, key: int, ptr: Ptr)
    requires keySize > 0
    ensures LeafRoom(pageSize, keySize, 0) <==> Fits(pageSize, keySize, Leaf([key], [ptr], NULL_PAGE))
  {
  }

  lemma StoredFits(nodes: seq<Node>, t: Tree, next: int, pageSize: nat, keySize: nat)
    requires t.TLeaf? && Formed(t) && Stored(nodes, t, next) && AllFit(pageSize, keySize, nodes)
    ensures Fits(pageSize, keySize, Leaf(t.keys, t.vals, next))
  {
    assert Fits(pageSize, keySize, nodes[t.pid]);
  }

  /** A tree of one leaf has as many entries as the leaf has keys. */
  lemma LeafCount(nodes: seq<Node>, t: Tree, m: nat)
    requires TreeValid(nodes, t, m) && t.TLeaf?
    ensures Formed(t) && Stored(nodes, t, NULL_PAGE) && |EntriesOf(t)| == |t.keys| == |t.vals|
  {
  }

  /** A leaf that loses a key still fits. */
  lemma ShorterFits(nodes: seq<Node>, pid: nat, idx: nat, pageSize: nat, keySize: nat)
    requires AllFit(pageSize, keySize, nodes) && pid < |nodes| && nodes[pid].Leaf? && idx < |nodes[pid].keys| == |nodes[pid].vals|
    ensures var l := nodes[pid];
            Fits(pageSize, keySize, Leaf(l.keys[..idx] + l.keys[idx + 1..], l.vals[..idx] + l.vals[idx + 1..], l.next))
  {
    assert Fits(pageSize, keySize, nodes[pid]);
    MoreBytes(|nodes[pid].keys| - 1, |nodes[pid].keys|, keySize + 8);
  }

  /** The hits of one leaf; `done` exactly when a key that is not below `low` is past `high`. */
  method ScanLeaf(keys: seq<int>, vals: seq<Ptr>, low: int, high: int) returns (hits: seq<Ptr>, done: bool)
    requires |keys| == |vals| && Increasing(keys)
    ensures hits == Range(Zip(keys, vals), low, high)
    ensures done <==> exists i :: 0 <= i < |keys| && keys[i] >= low && keys[i] > high
  {
    hits, done := [], false;
    var i := 0;
    while i < |keys|
      invariant i <= |keys| && hits == Range(Zip(keys[..i], vals[..i]), low, high)
      invariant forall j :: 0 <= j < i ==> !(keys[j] >= low && keys[j] > high)
    {
      ScanNext(keys, vals, i, low, high);
      if keys[i] >= low {
        if keys[i] > high {
          ScanRest(keys, vals, i, low, high);
          return hits, true;
        }
        hits := hits + [vals[i]];
      }
      i := i + 1;
    }
    assert keys[..i] == keys && vals[..i] == vals;
  }

  lemma ScanNext(keys: seq<int>, vals: seq<Ptr>, i: nat, low: int, high: int)
    requires |keys| == |vals| && i < |keys|
    ensures Range(Zip(keys[..i + 1], vals[..i + 1]), low, high)
         == Range(Zip(keys[..i], vals[..i]), low, high) + if low <= keys[i] <= high then [vals[i]] else []
  {
    var e := Entry(keys[i], vals[i]);
    assert Zip(keys[..i + 1], vals[..i + 1]) == Zip(keys[..i], vals[..i]) + [e];
    RangeConcat(Zip(keys[..i], vals[..i]), [e], low, high);
    assert Range([e], low, high) == (if low <= e.key <= high then [e.ptr] else []) + Range([], low, high);
  }

  lemma ScanRest(keys: seq<int>, vals: seq<Ptr>, i: nat, low: int, high: int)
    requires |keys| == |vals| && Increasing(keys) && i < |keys| && keys[i] > high
    ensures Range(Zip(keys, vals), low, high) == Range(Zip(keys[..i], vals[..i]), low, high)
    ensures keys[|keys| - 1] > high
  {
    var rest := Zip(keys[i..], vals[i..]);
    assert Zip(keys, vals) == Zip(keys[..i], vals[..i]) + rest;
    RangeConcat(Zip(keys[..i], vals[..i]), rest, low, high);
    RangeNothing(rest, low, high);
  }
}
