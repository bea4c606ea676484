/** Sorted entry lists: the abstract content of an index. */
module Entries {
  import opened Pages

  datatype Ptr = Ptr(page: int, slot: int)
  datatype Entry = Entry(key: int, ptr: Ptr)

  predicate Increasing(keys: seq<int>) {
    forall i, j :: 0 <= i < j < |keys| ==> keys[i] < keys[j]
  }

  predicate Sorted(es: seq<Entry>) {
    forall i, j :: 0 <= i < j < |es| ==> es[i].key < es[j].key
  }

  predicate AllBelow(es: seq<Entry>, k: int) {
    forall i :: 0 <= i < |es| ==> es[i].key < k
  }

  predicate AllAbove(es: seq<Entry>, k: int) {
    forall i :: 0 <= i < |es| ==> k < es[i].key
  }

  function Zip(keys: seq<int>, vals: seq<Ptr>): (es: seq<Entry>)
    requires |keys| == |vals|
    ensures |es| == |keys|
    ensures forall i :: 0 <= i < |es| ==> es[i] == Entry(keys[i], vals[i])
  {
    seq(|keys|, i requires 0 <= i < |keys| => Entry(keys[i], vals[i]))
  }

  // ---------------------------------------------------------------- map operations on entry lists

  function Lookup(es: seq<Entry>, k: int): Option<Ptr> {
    if es == [] then None else if es[0].key == k then Some(es[0].ptr) else Lookup(es[1..], k)
  }

  function Insert(es: seq<Entry>, k: int, p: Ptr): seq<Entry> {
    if es == [] || k <= es[0].key then [Entry(k, p)] + es else [es[0]] + Insert(es[1..], k, p)
  }

  function Remove(es: seq<Entry>, k: int): seq<Entry> {
    if es == [] then [] else if es[0].key == k then es[1..] else [es[0]] + Remove(es[1..], k)
  }

  /** Pointers of the keys in [low, high], in key order. */
  function Range(es: seq<Entry>, low: int, high: int): seq<Ptr> {
    if es == [] then []
    else (if low <= es[0].key <= high then [es[0].ptr] else []) + Range(es[1..], low, high)
  }

  function MapOf(es: seq<Entry>): map<int, Ptr> {
    if es == [] then map[] else MapOf(es[1..])[es[0].key := es[0].ptr]
  }

  lemma {:induction false} LookupIsMap(es: seq<Entry>, k: int)
    ensures Lookup(es, k) == if k in MapOf(es) then Some(MapOf(es)[k]) else None
  {
    if es != [] {
      LookupIsMap(es[1..], k);
    }
  }

  lemma {:induction false} InsertIsMap(es: seq<Entry>, k: int, p: Ptr)
    requires k !in MapOf(es)
    ensures MapOf(Insert(es, k, p)) == MapOf(es)[k := p]
  {
    if es != [] && k > es[0].key {
      InsertIsMap(es[1..], k, p);
    } else {
      assert ([Entry(k, p)] + es)[1..] == es;
    }
  }

  lemma {:induction false} RemoveIsMap(es: seq<Entry>, k: int)
    requires Sorted(es)
    ensures MapOf(Remove(es, k)) == MapOf(es) - {k}
  {
    if es != [] {
      if es[0].key == k {
        AboveNotIn(es[1..], k);
      } else {
        RemoveIsMap(es[1..], k);
      }
    }
  }

  lemma {:induction false} AboveNotIn(es: seq<Entry>, k: int)
    requires AllAbove(es, k) || AllBelow(es, k)
    ensures k !in MapOf(es) && Lookup(es, k) == None && Remove(es, k) == es
  {
    if es != [] {
      AboveNotIn(es[1..], k);
    }
  }

  /** Key k of the range has pointer p. */
  predicate Hit(m: map<int, Ptr>, low: int, high: int, k: int, p: Ptr) {
    k in m && low <= k <= high && m[k] == p
  }

  ghost predicate HasHit(m: map<int, Ptr>, low: int, high: int, p: Ptr) {
    exists k :: Hit(m, low, high, k, p)
  }

  lemma {:induction false} RangeIsMap(es: seq<Entry>, low: int, high: int, p: Ptr)
    requires Sorted(es)
    ensures p in Range(es, low, high) <==> HasHit(MapOf(es), low, high, p)
  {
    if es != [] {
      RangeIsMap(es[1..], low, high, p);
      AboveNotIn(es[1..], es[0].key);
      var m, m1 := MapOf(es), MapOf(es[1..]);
      var head := if low <= es[0].key <= high then [es[0].ptr] else [];
      assert Range(es, low, high) == head + Range(es[1..], low, high);
      if p in head {
        assert Range(es, low, high)[0] == p;
        assert Hit(m, low, high, es[0].key, p);
      } else if p in Range(es[1..], low, high) {
        var k :| Hit(m1, low, high, k, p);
        assert Hit(m, low, high, k, p);
      } else {
        forall k ensures !Hit(m, low, high, k, p) {
          assert !Hit(m1, low, high, k, p);
        }
      }
    }
  }

  // ---------------------------------------------------------------- the operations act locally

  lemma {:induction false} LookupAfter(a: seq<Entry>, b: seq<Entry>, k: int)
    requires AllBelow(a, k)
    ensures Lookup(a + b, k) == Lookup(b, k)
  {
    if a == [] {
      assert a + b == b;
    } else {
      assert (a + b)[1..] == a[1..] + b;
      LookupAfter(a[1..], b, k);
    }
  }

  lemma {:induction false} InsertAfter(a: seq<Entry>, b: seq<Entry>, k: int, p: Ptr)
    requires AllBelow(a, k)
    ensures Insert(a + b, k, p) == a + Insert(b, k, p)
  {
    if a == [] {
      assert a + b == b;
    } else {
      assert (a + b)[1..] == a[1..] + b && (a + b)[0] == a[0];
      InsertAfter(a[1..], b, k, p);
      assert [a[0]] + (a[1..] + Insert(b, k, p)) == a + Insert(b, k, p);
    }
  }

  lemma {:induction false} RemoveAfter(a: seq<Entry>, b: seq<Entry>, k: int)
    requires AllBelow(a, k)
    ensures Remove(a + b, k) == a + Remove(b, k)
  {
    if a == [] {
      assert a + b == b;
    } else {
      assert (a + b)[1..] == a[1..] + b && (a + b)[0] == a[0];
      RemoveAfter(a[1..], b, k);
      assert [a[0]] + (a[1..] + Remove(b, k)) == a + Remove(b, k);
    }
  }

  lemma {:induction false} LookupBefore(b: seq<Entry>, c: seq<Entry>, k: int)
    requires AllAbove(c, k)
    ensures Lookup(b + c, k) == Lookup(b, k)
  {
    if b == [] {
      assert b + c == c;
      AboveNotIn(c, k);
    } else {
      assert (b + c)[1..] == b[1..] + c;
      LookupBefore(b[1..], c, k);
    }
  }

  lemma {:induction false} InsertBefore(b: seq<Entry>, c: seq<Entry>, k: int, p: Ptr)
    requires AllAbove(c, k)
    ensures Insert(b + c, k, p) == Insert(b, k, p) + c
  {
    if b == [] {
      assert b + c == c;
    } else if k <= b[0].key {
      assert [Entry(k, p)] + (b + c) == ([Entry(k, p)] + b) + c;
    } else {
      assert (b + c)[1..] == b[1..] + c && (b + c)[0] == b[0];
      InsertBefore(b[1..], c, k, p);
      assert [b[0]] + (Insert(b[1..], k, p) + c) == ([b[0]] + Insert(b[1..], k, p)) + c;
    }
  }

  lemma {:induction false} RemoveBefore(b: seq<Entry>, c: seq<Entry>, k: int)
    requires AllAbove(c, k)
    ensures Remove(b + c, k) == Remove(b, k) + c
  {
    if b == [] {
      assert b + c == c;
      AboveNotIn(c, k);
    } else {
      assert (b + c)[1..] == b[1..] + c && (b + c)[0] == b[0];
      RemoveBefore(b[1..], c, k);
      assert [b[0]] + (Remove(b[1..], k) + c) == ([b[0]] + Remove(b[1..], k)) + c;
    }
  }

  /** The operations touch only the part of a sorted list that can hold the key. */
  lemma Local(a: seq<Entry>, b: seq<Entry>, c: seq<Entry>, k: int, p: Ptr)
    requires AllBelow(a, k) && AllAbove(c, k)
    ensures Lookup(a + b + c, k) == Lookup(b, k)
    ensures Insert(a + b + c, k, p) == a + Insert(b, k, p) + c
    ensures Remove(a + b + c, k) == a + Remove(b, k) + c
  {
    hide Lookup, Insert, Remove;
    assert a + b + c == a + (b + c);
    LookupAfter(a, b + c, k);
    LookupBefore(b, c, k);
    InsertAfter(a, b + c, k, p);
    InsertBefore(b, c, k, p);
    assert a + (Insert(b, k, p) + c) == a + Insert(b, k, p) + c;
    RemoveAfter(a, b + c, k);
    RemoveBefore(b, c, k);
    assert a + (Remove(b, k) + c) == a + Remove(b, k) + c;
  }

  lemma {:induction false} RangeConcat(a: seq<Entry>, b: seq<Entry>, low: int, high: int)
    ensures Range(a + b, low, high) == Range(a, low, high) + Range(b, low, high)
  {
    if a == [] {
      assert a + b == b;
    } else {
      assert (a + b)[1..] == a[1..] + b;
      RangeConcat(a[1..], b, low, high);
    }
  }

  lemma {:induction false} RangeNothing(es: seq<Entry>, low: int, high: int)
    requires forall i :: 0 <= i < |es| ==> es[i].key < low || es[i].key > high
    ensures Range(es, low, high) == []
  {
    if es != [] {
      RangeNothing(es[1..], low, high);
    }
  }

  // ---------------------------------------------------------------- sorted key lists

  /** bisect.bisect_left: how many keys are below k. */
  function BisectLeft(keys: seq<int>, k: int): (pos: nat)
    ensures pos <= |keys|
    ensures Increasing(keys) ==>
      (forall i :: 0 <= i < pos ==> keys[i] < k) && (forall i :: pos <= i < |keys| ==> k <= keys[i])
  {
    if keys == [] || k <= keys[0] then 0
    else
      var p := BisectLeft(keys[1..], k);
      assert forall i :: 1 <= i < |keys| ==> keys[i] == keys[1..][i - 1];
      p + 1
  }

  /** bisect.bisect_right: how many keys are at or below k. */
  function BisectRight(keys: seq<int>, k: int): (pos: nat)
    ensures pos <= |keys|
    ensures Increasing(keys) ==>
      (forall i :: 0 <= i < pos ==> keys[i] <= k) && (forall i :: pos <= i < |keys| ==> k < keys[i])
  {
    if keys == [] || k < keys[0] then 0
    else
      var p := BisectRight(keys[1..], k);
      assert forall i :: 1 <= i < |keys| ==> keys[i] == keys[1..][i - 1];
      p + 1
  }

  /** A sorted leaf body with one entry inserted, looked up or removed at its position. */
  lemma LeafInsert(keys: seq<int>, vals: seq<Ptr>, k: int, p: Ptr)
    requires |keys| == |vals| && Increasing(keys) && k !in keys
    ensures var i := BisectLeft(keys, k);
            var keys' := keys[..i] + [k] + keys[i..]; var vals' := vals[..i] + [p] + vals[i..];
            Increasing(keys') && Zip(keys', vals') == Insert(Zip(keys, vals), k, p)
  {
    var i := BisectLeft(keys, k);
    var es := Zip(keys, vals);
    forall j | i <= j < |keys| ensures k < keys[j] {
      assert keys[j] in keys;
    }
    IncreasingInsert(keys, i, k);
    ZipInsert(keys, vals, i, k, p);
    assert es[..i] + [] + es[i..] == es;
    Local(es[..i], [], es[i..], k, p);
    assert Insert([], k, p) == [Entry(k, p)];
  }

  lemma IncreasingInsert(keys: seq<int>, i: nat, k: int)
    requires Increasing(keys) && i <= |keys|
    requires (forall j :: 0 <= j < i ==> keys[j] < k) && (forall j :: i <= j < |keys| ==> k < keys[j])
    ensures Increasing(keys[..i] + [k] + keys[i..])
  {
  }

  lemma ZipInsert(keys: seq<int>, vals: seq<Ptr>, i: nat, k: int, p: Ptr)
    requires |keys| == |vals| && i <= |keys|
    ensures Zip(keys[..i] + [k] + keys[i..], vals[..i] + [p] + vals[i..])
         == Zip(keys, vals)[..i] + [Entry(k, p)] + Zip(keys, vals)[i..]
  {
  }

  lemma ZipRemove(keys: seq<int>, vals: seq<Ptr>, i: nat)
    requires |keys| == |vals| && i < |keys| && Increasing(keys)
    ensures Zip(keys[..i] + keys[i + 1..], vals[..i] + vals[i + 1..]) == Zip(keys, vals)[..i] + Zip(keys, vals)[i + 1..]
    ensures Increasing(keys[..i] + keys[i + 1..])
  {
  }

  lemma LeafFind(keys: seq<int>, vals: seq<Ptr>, k: int)
    requires |keys| == |vals| && Increasing(keys)
    ensures var i := BisectLeft(keys, k); var es := Zip(keys, vals);
            if i < |keys| && keys[i] == k then
              && Lookup(es, k) == Some(vals[i])
              && Remove(es, k) == Zip(keys[..i] + keys[i + 1..], vals[..i] + vals[i + 1..])
              && Increasing(keys[..i] + keys[i + 1..])
            else Lookup(es, k) == None && Remove(es, k) == es && k !in keys
  {
    hide Insert, Lookup, Remove, Zip, BisectLeft, AllBelow, AllAbove, Increasing;
    var i := BisectLeft(keys, k);
    var es := Zip(keys, vals);
    AroundKey(keys, vals, k);
    if i < |keys| && keys[i] == k {
      FoundAt(es, i);
      ZipRemove(keys, vals, i);
    } else {
      Absent(es, i, k);
    }
  }

  lemma FoundAt(es: seq<Entry>, i: nat)
    requires i < |es| && AllBelow(es[..i], es[i].key) && AllAbove(es[i + 1..], es[i].key)
    ensures Lookup(es, es[i].key) == Some(es[i].ptr) && Remove(es, es[i].key) == es[..i] + es[i + 1..]
  {
    hide Insert, Lookup, Remove, AllBelow, AllAbove;
    var a, e, c := es[..i], es[i], es[i + 1..];
    assert es == a + [e] + c;
    Local(a, [e], c, e.key, e.ptr);
    OneKey(e);
    assert a + [] + c == a + c;
  }

  lemma Absent(es: seq<Entry>, i: nat, k: int)
    requires i <= |es| && AllBelow(es[..i], k) && AllAbove(es[i..], k)
    ensures Lookup(es, k) == None && Remove(es, k) == es
  {
    hide Insert, Lookup, Remove, AllBelow, AllAbove;
    assert es == es[..i] + [] + es[i..];
    Local(es[..i], [], es[i..], k, Ptr(0, 0));
    NoKey(k);
  }

  /** What stands before and after the place of key k. */
  lemma AroundKey(keys: seq<int>, vals: seq<Ptr>, k: int)
    requires |keys| == |vals| && Increasing(keys)
    ensures var i := BisectLeft(keys, k); var es := Zip(keys, vals);
            && AllBelow(es[..i], k)
            && (if i < |keys| && keys[i] == k then AllAbove(es[i + 1..], k) else AllAbove(es[i..], k) && k !in keys)
  {
    hide BisectLeft, Zip;
  }

  lemma OneKey(e: Entry)
    ensures Lookup([e], e.key) == Some(e.ptr) && Remove([e], e.key) == []
  {
  }

  lemma NoKey(k: int)
    ensures Lookup([], k) == None && Remove([], k) == []
  {
  }
}
