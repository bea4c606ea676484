/** Layer 3 for one relation: records with a primary key over one heap, reached through the heap
    itself, the hash index or the B+ tree. Every operation is proved to do to the relation, and to
    answer, the same thing under each of the three strategies. */
module FileIndexManager {
  import opened Pages
  import opened Entries
  import opened Values
  import opened HeapScan
  import opened SlottedPages
  import H = HashIndex
  import B = BPlusTree
  import T = BTreePages
  import BTree
  import N = NodeLayout

  datatype Strategy = HeapStrategy | HashStrategy | TreeStrategy
  datatype Field = Field(name: string, ftype: FieldType)

  // ---------------------------------------------------------------- rows and the directory

  /** What coercion lets through: one value of its type and size per field. */
  predicate RowOk(row: Row, fields: seq<Field>) {
    |row| == |fields| && forall i :: 0 <= i < |row| ==> FieldOk(row[i], fields[i].ftype)
  }

  predicate FieldOk(v: Value, t: FieldType) {
    OfType(v, t) && (v.StrV? ==> |v.s| <= STR_FIELD_SIZE)
  }

  /** The inputs the record format is made for: 32-bit integers and ASCII text without trailing NUL. */
  predicate Plain(v: Value) {
    match v case IntV(_) => Storable(v) case StrV(s) => PlainText(s)
  }

  /** A plain value is accepted for a field exactly when the field can hold it. */
  lemma AcceptedFits(v: Value, t: FieldType)
    requires Plain(v)
    ensures FieldOk(v, t) <==> OfType(v, t) && Storable(v)
  {
  }

  ghost predicate PlainRow(row: Row) {
    forall i :: 0 <= i < |row| ==> Plain(row[i])
  }

  /** The directory of a heap: each primary key to the one slot that holds it, and every occupied
      slot reached from its key. */
  ghost predicate Directory(pages: seq<Slots<Row>>, fields: seq<Field>, pk: nat, dir: map<Value, Ptr>) {
    && (forall k :: k in dir ==> HasKey(Cell(pages, dir[k]), pk, k))
    && (forall q :: Cell(pages, q).Some? ==> RowAt(Cell(pages, q).value, fields, pk, dir, q))
  }

  ghost predicate RowAt(row: Row, fields: seq<Field>, pk: nat, dir: map<Value, Ptr>, q: Ptr) {
    RowOk(row, fields) && PlainRow(row) && pk < |row| && row[pk] in dir && dir[row[pk]] == q
  }

  ghost function RelationOf(pages: seq<Slots<Row>>, dir: map<Value, Ptr>): map<Value, Row>
    requires forall k :: k in dir ==> Cell(pages, dir[k]).Some?
  {
    map k | k in dir :: Cell(pages, dir[k]).value
  }

  /** The tree holds the directory under the keys' ranks. */
  ghost predicate TreeHolds(m: map<int, Ptr>, dir: map<Value, Ptr>) {
    && (forall k :: k in dir ==> Rank(k) in m && m[Rank(k)] == dir[k])
    && (forall r :: r in m ==> HasRank(dir, r))
  }

  ghost predicate HasRank(dir: map<Value, Ptr>, r: int) {
    exists k :: k in dir && Rank(k) == r
  }

  /** The hash index holds the directory under the keys' blobs. */
  ghost predicate HashHolds(m: map<Bytes, Ptr>, dir: map<Value, Ptr>) {
    && (forall k :: k in dir ==> Storable(k))
    && (forall k :: k in dir ==> EncodeKey(k) in m && m[EncodeKey(k)] == dir[k])
    && (forall b :: b in m ==> HasBlob(dir, b))
  }

  ghost predicate HasBlob(dir: map<Value, Ptr>, b: Bytes) {
    exists k :: k in dir && Storable(k) && EncodeKey(k) == b
  }

  /** Keys are storable values of one type. */
  ghost predicate KeysOk(dir: map<Value, Ptr>, t: FieldType) {
    forall k :: k in dir ==> Storable(k) && OfType(k, t)
  }

  lemma DirectoryKeys(pages: seq<Slots<Row>>, fields: seq<Field>, pk: nat, dir: map<Value, Ptr>)
    requires Directory(pages, fields, pk, dir) && pk < |fields|
    ensures KeysOk(dir, fields[pk].ftype)
    ensures forall k :: k in dir ==> Cell(pages, dir[k]).Some?
    ensures forall k :: k in dir ==> dir[k].page >= 0 && dir[k].page < |pages| && 0 <= dir[k].slot
  {
    forall k | k in dir ensures Storable(k) && OfType(k, fields[pk].ftype) {
      assert HasKey(Cell(pages, dir[k]), pk, k);
      assert RowAt(Cell(pages, dir[k]).value, fields, pk, dir, dir[k]);
    }
  }

  lemma DirectoryPut(pages: seq<Slots<Row>>, pages': seq<Slots<Row>>, fields: seq<Field>, pk: nat, dir: map<Value, Ptr>,
                     at: Ptr, row: Row)
    requires Directory(pages, fields, pk, dir) && RowOk(row, fields) && PlainRow(row) && pk < |row| && row[pk] !in dir
    requires Cell(pages, at) == None && Cell(pages', at) == Some(row)
    requires forall q :: q != at ==> Cell(pages', q) == Cell(pages, q)
    ensures Directory(pages', fields, pk, dir[row[pk] := at])
    ensures RelationOf(pages', dir[row[pk] := at]) == RelationOf(pages, dir)[row[pk] := row]
  {
    hide Cell;
    var dir' := dir[row[pk] := at];
    forall q | Cell(pages', q).Some? ensures RowAt(Cell(pages', q).value, fields, pk, dir', q) {
      if q != at {
        assert RowAt(Cell(pages, q).value, fields, pk, dir, q);
      }
    }
    forall k | k in dir' ensures HasKey(Cell(pages', dir'[k]), pk, k) {
      if k != row[pk] {
        assert HasKey(Cell(pages, dir[k]), pk, k);
      }
    }
  }

  lemma DirectorySame(pages: seq<Slots<Row>>, pages': seq<Slots<Row>>, fields: seq<Field>, pk: nat, dir: map<Value, Ptr>)
    requires Directory(pages, fields, pk, dir) && forall q :: Cell(pages', q) == Cell(pages, q)
    ensures Directory(pages', fields, pk, dir) && RelationOf(pages', dir) == RelationOf(pages, dir)
  {
    hide Cell;
  }

  lemma DirectoryDrop(pages: seq<Slots<Row>>, pages': seq<Slots<Row>>, fields: seq<Field>, pk: nat, dir: map<Value, Ptr>,
                      key: Value)
    requires Directory(pages, fields, pk, dir) && key in dir
    requires Cell(pages', dir[key]) == None
    requires forall q :: q != dir[key] ==> Cell(pages', q) == Cell(pages, q)
    ensures Directory(pages', fields, pk, dir - {key})
    ensures RelationOf(pages', dir - {key}) == RelationOf(pages, dir) - {key}
  {
    hide Cell;
    var dir' := dir - {key};
    assert HasKey(Cell(pages, dir[key]), pk, key);
    forall q | Cell(pages', q).Some? ensures RowAt(Cell(pages', q).value, fields, pk, dir', q) {
      assert RowAt(Cell(pages, q).value, fields, pk, dir, q);
    }
    forall k | k in dir' ensures HasKey(Cell(pages', dir'[k]), pk, k) && Cell(pages', dir'[k]) == Cell(pages, dir[k]) {
      assert HasKey(Cell(pages, dir[k]), pk, k);
    }
  }

  // ---------------------------------------------------------------- the two indexes and the directory

  lemma TreeFinds(m: map<int, Ptr>, dir: map<Value, Ptr>, t: FieldType, key: Value)
    requires TreeHolds(m, dir) && KeysOk(dir, t) && Storable(key) && OfType(key, t)
    ensures Rank(key) in m <==> key in dir
  {
    if Rank(key) in m {
      assert HasRank(dir, Rank(key));
      var k :| k in dir && Rank(k) == Rank(key);
      RankOrder(k, key, t);
    }
  }

  lemma TreePut(m: map<int, Ptr>, dir: map<Value, Ptr>, t: FieldType, key: Value, at: Ptr)
    requires TreeHolds(m, dir) && KeysOk(dir, t) && Storable(key) && OfType(key, t) && key !in dir
    ensures TreeHolds(m[Rank(key) := at], dir[key := at])
  {
    hide Rank;
    var m', dir' := m[Rank(key) := at], dir[key := at];
    forall k | k in dir' ensures Rank(k) in m' && m'[Rank(k)] == dir'[k] {
      if k != key {
        RankOrder(k, key, t);
      }
    }
    forall r | r in m' ensures HasRank(dir', r) {
      if r == Rank(key) {
        assert key in dir';
      } else {
        assert HasRank(dir, r);
        var k :| k in dir && Rank(k) == r;
        assert k in dir';
      }
    }
  }

  lemma TreeDrop(m: map<int, Ptr>, dir: map<Value, Ptr>, t: FieldType, key: Value)
    requires TreeHolds(m, dir) && KeysOk(dir, t) && key in dir
    ensures TreeHolds(m - {Rank(key)}, dir - {key})
  {
    hide Rank;
    var m', dir' := m - {Rank(key)}, dir - {key};
    forall k | k in dir' ensures Rank(k) in m' && m'[Rank(k)] == dir'[k] {
      RankOrder(k, key, t);
    }
    forall r | r in m' ensures HasRank(dir', r) {
      assert HasRank(dir, r);
      var k :| k in dir && Rank(k) == r;
      assert k in dir';
    }
  }

  lemma BlobOrder(a: Value, b: Value, t: FieldType)
    requires Storable(a) && Storable(b) && OfType(a, t) && OfType(b, t)
    ensures EncodeKey(a) == EncodeKey(b) <==> a == b
  {
    KeyRoundTrip(a, t);
    KeyRoundTrip(b, t);
  }

  lemma HashFinds(m: map<Bytes, Ptr>, dir: map<Value, Ptr>, t: FieldType, key: Value)
    requires HashHolds(m, dir) && KeysOk(dir, t) && Storable(key) && OfType(key, t)
    ensures EncodeKey(key) in m <==> key in dir
  {
    hide EncodeKey;
    if EncodeKey(key) in m {
      assert HasBlob(dir, EncodeKey(key));
      var k :| k in dir && Storable(k) && EncodeKey(k) == EncodeKey(key);
      BlobOrder(k, key, t);
    }
  }

  lemma HashPut(m: map<Bytes, Ptr>, dir: map<Value, Ptr>, t: FieldType, key: Value, at: Ptr)
    requires HashHolds(m, dir) && KeysOk(dir, t) && Storable(key) && OfType(key, t) && key !in dir
    ensures HashHolds(m[EncodeKey(key) := at], dir[key := at])
  {
    hide EncodeKey, Storable;
    var m', dir' := m[EncodeKey(key) := at], dir[key := at];
    forall k | k in dir' ensures EncodeKey(k) in m' && m'[EncodeKey(k)] == dir'[k] {
      if k != key {
        BlobOrder(k, key, t);
      }
    }
    forall b | b in m' ensures HasBlob(dir', b) {
      if b == EncodeKey(key) {
        assert key in dir';
      } else {
        assert HasBlob(dir, b);
        var k :| k in dir && Storable(k) && EncodeKey(k) == b;
        assert k in dir';
      }
    }
  }

  lemma HashDrop(m: map<Bytes, Ptr>, dir: map<Value, Ptr>, t: FieldType, key: Value)
    requires HashHolds(m, dir) && KeysOk(dir, t) && key in dir
    ensures HashHolds(m - {EncodeKey(key)}, dir - {key})
  {
    hide EncodeKey, Storable;
    var m', dir' := m - {EncodeKey(key)}, dir - {key};
    forall k | k in dir' ensures EncodeKey(k) in m' && m'[EncodeKey(k)] == dir'[k] {
      BlobOrder(k, key, t);
    }
    forall b | b in m' ensures HasBlob(dir', b) {
      assert HasBlob(dir, b);
      var k :| k in dir && Storable(k) && EncodeKey(k) == b;
      assert k in dir';
    }
  }

  // ---------------------------------------------------------------- the answer of a range search

  predicate Rangeable(row: Row, field: nat, pk: nat) {
    field < |row| && row[field].IntV? && pk < |row|
  }

  /** By the searched field, ties by primary key. */
  predicate RowLess(a: Row, b: Row, field: nat, pk: nat)
    requires Rangeable(a, field, pk) && Rangeable(b, field, pk)
  {
    a[field].n < b[field].n || (a[field].n == b[field].n && Rank(a[pk]) < Rank(b[pk]))
  }

  ghost predicate AllRangeable(rows: seq<Row>, field: nat, pk: nat) {
    forall i :: 0 <= i < |rows| ==> Rangeable(rows[i], field, pk)
  }

  ghost predicate StrictlyOrdered(rows: seq<Row>, field: nat, pk: nat)
    requires AllRangeable(rows, field, pk)
  {
    forall i, j :: 0 <= i < j < |rows| ==> RowLess(rows[i], rows[j], field, pk)
  }

  /** The rows of the relation with low <= field <= high, in order. */
  ghost predicate IsAnswer(rows: seq<Row>, rel: map<Value, Row>, field: nat, pk: nat, low: int, high: int) {
    && AllRangeable(rows, field, pk) && StrictlyOrdered(rows, field, pk)
    && forall r :: r in rows <==> RowHit(r, rel, field, pk, low, high)
  }

  ghost predicate RowHit(r: Row, rel: map<Value, Row>, field: nat, pk: nat, low: int, high: int) {
    pk < |r| && r[pk] in rel && rel[r[pk]] == r && InRange(Some(r), field, low, high)
  }

  /** Never downwards in the searched field, and upwards by primary key where it is the same. */
  ghost predicate Ascending(rows: seq<Row>, field: nat, pk: nat) {
    && AllRangeable(rows, field, pk)
    && forall i, j :: 0 <= i < j < |rows| ==>
         && rows[i][field].n <= rows[j][field].n
         && (rows[i][field].n == rows[j][field].n ==> Less(rows[i][pk], rows[j][pk]))
  }

  /** The answer over a relation is in the order the source promises. */
  lemma AnswerAscends(rows: seq<Row>, pages: seq<Slots<Row>>, fields: seq<Field>, pk: nat, dir: map<Value, Ptr>,
                      field: nat, low: int, high: int)
    requires Directory(pages, fields, pk, dir) && pk < |fields| && forall k :: k in dir ==> Cell(pages, dir[k]).Some?
    requires IsAnswer(rows, RelationOf(pages, dir), field, pk, low, high)
    ensures Ascending(rows, field, pk)
  {
    hide Rank, Cell, Less, Storable;
    DirectoryKeys(pages, fields, pk, dir);
    forall i, j | 0 <= i < j < |rows|
      ensures rows[i][field].n <= rows[j][field].n
      ensures rows[i][field].n == rows[j][field].n ==> Less(rows[i][pk], rows[j][pk])
    {
      var a, b := rows[i], rows[j];
      assert a in rows && b in rows;
      assert RowHit(a, RelationOf(pages, dir), field, pk, low, high) && RowHit(b, RelationOf(pages, dir), field, pk, low, high);
      assert RowLess(a, b, field, pk);
      RankOrder(a[pk], b[pk], fields[pk].ftype);
    }
  }

  /** There is only one answer: whatever the strategy, the same rows in the same order. */
  lemma AnswerUnique(a: seq<Row>, b: seq<Row>, rel: map<Value, Row>, field: nat, pk: nat, low: int, high: int)
    requires IsAnswer(a, rel, field, pk, low, high) && IsAnswer(b, rel, field, pk, low, high)
    ensures a == b
  {
    forall r ensures r in a <==> r in b {
      assert r in a <==> RowHit(r, rel, field, pk, low, high);
    }
    SortedUnique(a, b, field, pk);
  }

  lemma {:induction false} SortedUnique(a: seq<Row>, b: seq<Row>, field: nat, pk: nat)
    requires AllRangeable(a, field, pk) && AllRangeable(b, field, pk)
    requires StrictlyOrdered(a, field, pk) && StrictlyOrdered(b, field, pk)
    requires forall r :: r in a <==> r in b
    ensures a == b
  {
    assert a == [] <==> b == [] by {
      if a != [] {
        assert a[0] in b;
      }
      if b != [] {
        assert b[0] in a;
      }
    }
    if a != [] {
      SameTop(a, b, field, pk);
      forall r ensures r in a[1..] <==> r in b[1..] {
        assert r in a[1..] <==> r in a && r != a[0] by {
          TailOf(a, field, pk, r);
        }
        assert r in b[1..] <==> r in b && r != b[0] by {
          TailOf(b, field, pk, r);
        }
      }
      SortedUnique(a[1..], b[1..], field, pk);
      assert a == [a[0]] + a[1..] && b == [b[0]] + b[1..];
    }
  }

  lemma SameTop(a: seq<Row>, b: seq<Row>, field: nat, pk: nat)
    requires a != [] && b != [] && AllRangeable(a, field, pk) && AllRangeable(b, field, pk)
    requires StrictlyOrdered(a, field, pk) && StrictlyOrdered(b, field, pk)
    requires forall r :: r in a <==> r in b
    ensures a[0] == b[0]
  {
    hide Rank;
    assert a[0] in b && b[0] in a;
    var j :| 0 <= j < |b| && b[j] == a[0];
    var i :| 0 <= i < |a| && a[i] == b[0];
    FirstLeast(b, j, field, pk);
    FirstLeast(a, i, field, pk);
  }

  lemma FirstLeast(a: seq<Row>, i: nat, field: nat, pk: nat)
    requires i < |a| && AllRangeable(a, field, pk) && StrictlyOrdered(a, field, pk)
    ensures i == 0 || RowLess(a[0], a[i], field, pk)
  {
  }

  lemma TailOf(a: seq<Row>, field: nat, pk: nat, r: Row)
    requires a != [] && AllRangeable(a, field, pk) && StrictlyOrdered(a, field, pk)
    ensures r in a[1..] <==> r in a && r != a[0]
  {
    hide Rank;
    assert a == [a[0]] + a[1..];
    if r in a[1..] {
      var i :| 0 <= i < |a[1..]| && a[1..][i] == r;
      assert RowLess(a[0], a[i + 1], field, pk);
    }
  }

  // ---------------------------------------------------------------- _order_range

  /** Keeps equal keys in their order, as a stable sort does. */
  function InsertRow(rows: seq<Row>, r: Row, field: nat, pk: nat): (s: seq<Row>)
    requires AllRangeable(rows, field, pk) && Rangeable(r, field, pk)
    ensures AllRangeable(s, field, pk) && |s| == |rows| + 1
    ensures forall x :: x in s <==> x == r || x in rows
  {
    if rows == [] || !RowLess(r, rows[|rows| - 1], field, pk) then rows + [r]
    else
      var front, last := rows[..|rows| - 1], rows[|rows| - 1];
      assert rows == front + [last];
      InsertRow(front, r, field, pk) + [last]
  }

  function OrderRange(rows: seq<Row>, field: nat, pk: nat): (s: seq<Row>)
    requires AllRangeable(rows, field, pk)
    ensures AllRangeable(s, field, pk) && |s| == |rows|
    ensures forall x :: x in s <==> x in rows
  {
    if rows == [] then []
    else
      assert rows == rows[..|rows| - 1] + [rows[|rows| - 1]];
      InsertRow(OrderRange(rows[..|rows| - 1], field, pk), rows[|rows| - 1], field, pk)
  }

  /** No two rows share a primary key. */
  ghost predicate DistinctKeys(rows: seq<Row>, field: nat, pk: nat)
    requires AllRangeable(rows, field, pk)
  {
    forall i, j :: 0 <= i < j < |rows| ==> Rank(rows[i][pk]) != Rank(rows[j][pk])
  }

  lemma {:induction false} InsertRowOrdered(rows: seq<Row>, r: Row, field: nat, pk: nat)
    requires AllRangeable(rows, field, pk) && Rangeable(r, field, pk) && StrictlyOrdered(rows, field, pk)
    requires forall x :: x in rows ==> Rank(x[pk]) != Rank(r[pk])
    ensures StrictlyOrdered(InsertRow(rows, r, field, pk), field, pk)
  {
    hide Rank;
    if rows == [] {
    } else {
      var n := |rows| - 1;
      var front, last := rows[..n], rows[n];
      assert last in rows;
      if RowLess(r, last, field, pk) {
        InsertRowOrdered(front, r, field, pk);
        var s := InsertRow(front, r, field, pk);
        forall i | 0 <= i < |s| ensures RowLess(s[i], last, field, pk) {
          assert s[i] in s;
          if s[i] != r {
            var j :| 0 <= j < |front| && front[j] == s[i];
            assert RowLess(rows[j], rows[n], field, pk);
          }
        }
      } else {
        forall i | 0 <= i < n ensures RowLess(rows[i], r, field, pk) {
          assert RowLess(rows[i], last, field, pk);
        }
      }
    }
  }

  lemma {:induction false} OrderRangeOrdered(rows: seq<Row>, field: nat, pk: nat)
    requires AllRangeable(rows, field, pk) && DistinctKeys(rows, field, pk)
    ensures StrictlyOrdered(OrderRange(rows, field, pk), field, pk)
  {
    hide Rank;
    if rows != [] {
      var n := |rows| - 1;
      OrderRangeOrdered(rows[..n], field, pk);
      forall x | x in OrderRange(rows[..n], field, pk) ensures Rank(x[pk]) != Rank(rows[n][pk]) {
        var i :| 0 <= i < n && rows[..n][i] == x;
        assert rows[i] == x;
      }
      InsertRowOrdered(OrderRange(rows[..n], field, pk), rows[n], field, pk);
    }
  }

  // ---------------------------------------------------------------- what a range scan collects

  /** Rows of distinct slots have distinct primary keys. */
  lemma ScanAnswers(pages: seq<Slots<Row>>, fields: seq<Field>, pk: nat, dir: map<Value, Ptr>, field: nat,
                    low: int, high: int, matches: seq<Row>, at: seq<Ptr>)
    requires Directory(pages, fields, pk, dir) && pk < |fields| && field < |fields| && fields[field].ftype == IntT
    requires |at| == |matches| && forall i, j :: 0 <= i < j < |at| ==> at[i] != at[j]
    requires forall i :: 0 <= i < |at| ==> Cell(pages, at[i]) == Some(matches[i]) && InRange(Some(matches[i]), field, low, high)
    requires forall q :: InRange(Cell(pages, q), field, low, high) ==> q in at
    ensures AllRangeable(matches, field, pk)
    ensures IsAnswer(OrderRange(matches, field, pk), RelationOf(pages, dir), field, pk, low, high)
  {
    hide Rank, Cell;
    CollectedDistinct(pages, fields, pk, dir, field, low, high, matches, at);
    forall r ensures r in matches <==> RowHit(r, RelationOf(pages, dir), field, pk, low, high) {
      if RowHit(r, RelationOf(pages, dir), field, pk, low, high) {
        HitFound(pages, dir, field, pk, low, high, matches, at, r);
      }
      if r in matches {
        var i :| 0 <= i < |matches| && matches[i] == r;
        assert RowAt(Cell(pages, at[i]).value, fields, pk, dir, at[i]);
      }
    }
    OrderRangeOrdered(matches, field, pk);
  }

  lemma HitFound(pages: seq<Slots<Row>>, dir: map<Value, Ptr>, field: nat, pk: nat, low: int, high: int,
                 matches: seq<Row>, at: seq<Ptr>, r: Row)
    requires forall k :: k in dir ==> Cell(pages, dir[k]).Some?
    requires |at| == |matches| && RowHit(r, RelationOf(pages, dir), field, pk, low, high)
    requires forall i :: 0 <= i < |at| ==> Cell(pages, at[i]) == Some(matches[i])
    requires forall q :: InRange(Cell(pages, q), field, low, high) ==> q in at
    ensures r in matches
  {
    hide Cell;
    var q := dir[r[pk]];
    assert InRange(Cell(pages, q), field, low, high);
    var i :| 0 <= i < |at| && at[i] == q;
    assert matches[i] == r;
  }

  lemma CollectedDistinct(pages: seq<Slots<Row>>, fields: seq<Field>, pk: nat, dir: map<Value, Ptr>, field: nat,
                          low: int, high: int, matches: seq<Row>, at: seq<Ptr>)
    requires Directory(pages, fields, pk, dir) && pk < |fields| && field < |fields| && fields[field].ftype == IntT
    requires |at| == |matches| && forall i, j :: 0 <= i < j < |at| ==> at[i] != at[j]
    requires forall i :: 0 <= i < |at| ==> Cell(pages, at[i]) == Some(matches[i])
    ensures AllRangeable(matches, field, pk) && DistinctKeys(matches, field, pk)
  {
    hide Cell, Rank;
    forall i | 0 <= i < |matches| ensures RowAt(matches[i], fields, pk, dir, at[i]) && Rangeable(matches[i], field, pk) {
      assert RowAt(Cell(pages, at[i]).value, fields, pk, dir, at[i]);
      assert FieldOk(matches[i][field], fields[field].ftype);
    }
    forall i, j | 0 <= i < j < |matches| ensures Rank(matches[i][pk]) != Rank(matches[j][pk]) {
      assert RowAt(matches[i], fields, pk, dir, at[i]) && RowAt(matches[j], fields, pk, dir, at[j]);
      assert FieldOk(matches[i][pk], fields[pk].ftype) && FieldOk(matches[j][pk], fields[pk].ftype);
      assert Plain(matches[i][pk]) && Plain(matches[j][pk]);
      RankOrder(matches[i][pk], matches[j][pk], fields[pk].ftype);
    }
  }

  /** A tree range search names the hits' slots, each once. */
  lemma TreeRangeHits(es: seq<Entry>, pages: seq<Slots<Row>>, fields: seq<Field>, pk: nat, dir: map<Value, Ptr>,
                      low: int, high: int)
    requires Directory(pages, fields, pk, dir) && pk < |fields| && fields[pk].ftype == IntT
    requires Sorted(es) && TreeHolds(MapOf(es), dir)
    ensures var ptrs := Range(es, low, high);
            && (forall i :: 0 <= i < |ptrs| ==> InRange(Cell(pages, ptrs[i]), pk, low, high))
            && (forall q :: InRange(Cell(pages, q), pk, low, high) ==> q in ptrs)
  {
    hide Cell;
    var ptrs, m := Range(es, low, high), MapOf(es);
    DirectoryKeys(pages, fields, pk, dir);
    forall q ensures q in ptrs <==> InRange(Cell(pages, q), pk, low, high) {
      RangeIsMap(es, low, high, q);
      if HasHit(m, low, high, q) {
        var r :| Hit(m, low, high, r, q);
        assert HasRank(dir, r);
        var k :| k in dir && Rank(k) == r;
        assert HasKey(Cell(pages, dir[k]), pk, k);
      }
      if InRange(Cell(pages, q), pk, low, high) {
        var row := Cell(pages, q).value;
        assert RowAt(row, fields, pk, dir, q);
        assert Hit(m, low, high, row[pk].n, q);
      }
    }
    forall i | 0 <= i < |ptrs| ensures InRange(Cell(pages, ptrs[i]), pk, low, high) {
      assert ptrs[i] in ptrs;
    }
  }

  /** And no slot twice. */
  lemma {:induction false} RangeDistinct(es: seq<Entry>, low: int, high: int)
    requires Sorted(es) && forall i, j :: 0 <= i < j < |es| ==> es[i].ptr != es[j].ptr
    ensures forall i, j :: 0 <= i < j < |Range(es, low, high)| ==> Range(es, low, high)[i] != Range(es, low, high)[j]
    ensures forall p :: p in Range(es, low, high) ==> exists i :: 0 <= i < |es| && es[i].ptr == p
  {
    if es != [] {
      RangeDistinct(es[1..], low, high);
      var rest := Range(es[1..], low, high);
      forall p | p in rest ensures p != es[0].ptr && exists i :: 0 <= i < |es| && es[i].ptr == p {
        var i :| 0 <= i < |es[1..]| && es[1..][i].ptr == p;
        assert es[i + 1].ptr == p;
      }
      var all := Range(es, low, high);
      assert all == rest || all == [es[0].ptr] + rest;
      forall i, j | 0 <= i < j < |all| ensures all[i] != all[j] {
        if all != rest {
          assert all[j] == rest[j - 1] && rest[j - 1] in rest;
        }
      }
    }
  }

  /** Entries of a tree over a directory point to distinct slots. */
  lemma EntryPtrsDistinct(es: seq<Entry>, pages: seq<Slots<Row>>, fields: seq<Field>, pk: nat, dir: map<Value, Ptr>)
    requires Directory(pages, fields, pk, dir) && Sorted(es) && TreeHolds(MapOf(es), dir)
    ensures forall i, j :: 0 <= i < j < |es| ==> es[i].ptr != es[j].ptr
  {
    hide Cell, Rank;
    forall i, j | 0 <= i < j < |es| ensures es[i].ptr != es[j].ptr {
      EntryInMap(es, i);
      EntryInMap(es, j);
      assert HasRank(dir, es[i].key) && HasRank(dir, es[j].key);
      var k :| k in dir && Rank(k) == es[i].key;
      var l :| l in dir && Rank(l) == es[j].key;
      assert HasKey(Cell(pages, dir[k]), pk, k) && HasKey(Cell(pages, dir[l]), pk, l);
    }
  }

  lemma {:induction false} EntryInMap(es: seq<Entry>, i: nat)
    requires Sorted(es) && i < |es|
    ensures es[i].key in MapOf(es) && MapOf(es)[es[i].key] == es[i].ptr
  {
    if i > 0 {
      assert es[0].key < es[i].key;
      EntryInMap(es[1..], i - 1);
    }
  }

  // ---------------------------------------------------------------- the manager

  /** The index of the strategy in use holds directory d. */
  ghost predicate IndexOver(strategy: Strategy, keyType: FieldType, hash: H.HashIndex, tree: B.BPlusTree, root: int,
                            d: map<Value, Ptr>)
    reads hash, tree
  {
    && (strategy == HashStrategy ==> hash.Valid() && hash.keyType == keyType && HashHolds(hash.content, d))
    && (strategy == TreeStrategy ==> tree.Valid(root) && TreeHolds(MapOf(TreeContent(tree, root)), d))
  }

  function Types(fields: seq<Field>): seq<FieldType> {
    seq(|fields|, i requires 0 <= i < |fields| => fields[i].ftype)
  }

  /** The pages are large enough for every slot of a bucket, or for every node of the tree. */
  predicate IndexFits(strategy: Strategy, keyType: FieldType, pageSize: nat) {
    && (strategy == HashStrategy ==> SlotFits(pageSize, MAX_SLOTS - 1, H.ENTRY_SIZE))
    && (strategy == TreeStrategy ==> B.Roomy(pageSize, N.FieldSize(keyType)))
  }

  /** Both indexes are laid out for pages of this size. */
  predicate SamePageSize(hash: H.HashIndex, tree: B.BPlusTree, keyType: FieldType, pageSize: nat) {
    hash.pageSize == tree.pageSize == pageSize && tree.keySize == N.FieldSize(keyType)
  }

  /** The index takes an entry for the key. */
  ghost predicate TakesKey(strategy: Strategy, hash: H.HashIndex, tree: B.BPlusTree, root: int, key: Value)
    reads hash, tree
    requires (strategy == HashStrategy ==> hash.Valid()) && (strategy == TreeStrategy ==> tree.Valid(root))
  {
    && (strategy == HashStrategy ==> hash.HasRoom(key))
    && (strategy == TreeStrategy ==> tree.HasRoom(Rank(key)))
  }

  /** Row `row` stands in slot `at` of the heap without an index entry; nothing else has changed. */
  ghost predicate Orphan(before: seq<Slots<Row>>, after: seq<Slots<Row>>, dir: map<Value, Ptr>, pk: nat, row: Row, at: Ptr) {
    && pk < |row| && row[pk] !in dir && (forall k :: k in dir ==> dir[k] != at)
    && Cell(before, at) == None && Cell(after, at) == Some(row)
    && forall q :: q != at ==> Cell(after, q) == Cell(before, q)
  }

  /** Such a row is in no relation: its slot is one that no key points to. */
  lemma OrphanBreaks(before: seq<Slots<Row>>, after: seq<Slots<Row>>, fields: seq<Field>, pk: nat, dir: map<Value, Ptr>,
                     row: Row, at: Ptr)
    requires Directory(before, fields, pk, dir) && Cell(before, at) == None && Cell(after, at) == Some(row)
    requires pk < |row| && row[pk] !in dir && forall q :: q != at ==> Cell(after, q) == Cell(before, q)
    ensures Orphan(before, after, dir, pk, row, at) && !Directory(after, fields, pk, dir)
  {
    hide Cell;
    forall k | k in dir ensures dir[k] != at {
      assert HasKey(Cell(before, dir[k]), pk, k);
    }
    assert !RowAt(Cell(after, at).value, fields, pk, dir, at);
  }

  lemma RowKey(row: Row, fields: seq<Field>, pk: nat)
    requires RowOk(row, fields) && PlainRow(row) && pk < |fields|
    ensures pk < |row| && Plain(row[pk]) && Storable(row[pk]) && OfType(row[pk], fields[pk].ftype)
  {
    assert FieldOk(row[pk], fields[pk].ftype) && Plain(row[pk]);
  }

  lemma HitsOccupied(pages: seq<Slots<Row>>, found: seq<Ptr>, pk: nat, low: int, high: int)
    requires forall q :: q in found ==> InRange(Cell(pages, q), pk, low, high)
    ensures forall i :: 0 <= i < |found| ==> Cell(pages, found[i]).Some? && InRange(Cell(pages, found[i]), pk, low, high)
  {
    hide Cell;
    forall i | 0 <= i < |found| ensures Cell(pages, found[i]).Some? && InRange(Cell(pages, found[i]), pk, low, high) {
      assert found[i] in found;
    }
  }

  class Manager {
    const strategy: Strategy
    const fields: seq<Field>
    const pk: nat                    // position of the primary key
    const heap: Heap
    const hash: H.HashIndex
    const tree: B.BPlusTree
    var bplusRoot: int
    var numRecords: nat
    ghost var dir: map<Value, Ptr>

    /** The active index holds directory d. */
    ghost predicate IndexHolds(d: map<Value, Ptr>)
      reads this`bplusRoot, hash, tree
      requires pk < |fields|
    {
      IndexOver(strategy, fields[pk].ftype, hash, tree, bplusRoot, d)
    }

    /** Index pointers and occupied slots correspond one to one, and primary keys are unique. */
    ghost predicate Valid()
      reads this, heap, hash, tree
    {
      && pk < |fields| && heap.Valid() && Directory(heap.pages, fields, pk, dir) && numRecords == |dir|
      && IndexHolds(dir) && SamePageSize(hash, tree, fields[pk].ftype, heap.pageSize)
    }

    /** The active index takes an entry for the key. */
    ghost predicate HasRoom(key: Value)
      reads this`bplusRoot, this`dir, hash, tree
      requires pk < |fields| && IndexHolds(dir)
    {
      TakesKey(strategy, hash, tree, bplusRoot, key)
    }

    /** The relation: each primary key with its row. */
    ghost function Relation(): map<Value, Row>
      reads this, heap, hash, tree
      requires Valid()
    {
      RelationOf(heap.pages, dir)
    }

    /** `create_type`: an empty heap and the chosen index. */
    constructor (strategy: Strategy, fields: seq<Field>, pkOrder: nat, maxRecords: int, hashBuckets: nat, pageSize: nat)
      requires 1 <= pkOrder <= |fields| && (strategy == HashStrategy ==> hashBuckets >= 1) && pageSize >= HEADER_SIZE
      ensures Valid() && Relation() == map[] && numRecords == 0
      ensures this.strategy == strategy && this.fields == fields && pk == pkOrder - 1
      ensures heap.pageSize == pageSize && heap.recordSize == N.RecordSize(Types(fields))
      ensures heap.cap == if maxRecords < 1 then 1 else if maxRecords > MAX_SLOTS then MAX_SLOTS else maxRecords
      ensures fresh({this, heap, hash, tree})
    {
      hide Directory, TreeHolds, HashHolds, MapOf, RelationOf, IndexOver, N.RecordSize, Types, B.TreeValid, H.Holds;
      var keyType := fields[pkOrder - 1].ftype;
      this.strategy, this.fields, pk := strategy, fields, pkOrder - 1;
      heap := new Heap(maxRecords, pageSize, N.RecordSize(Types(fields)));
      hash := new H.HashIndex(pageSize, hashBuckets, keyType);
      tree := new B.BPlusTree(pageSize, N.FieldSize(keyType));
      numRecords, dir, bplusRoot := 0, map[], NULL_PAGE;
      new;
      BuildIndex();
      NothingStored(heap.pages, this.fields, pk);
      EmptyRelation(heap.pages);
    }

    /** The index file of a new relation. */
    method BuildIndex()
      requires pk < |fields| && hash.pages == [] && hash.keyType == fields[pk].ftype
      requires strategy == HashStrategy ==> hash.buckets >= 1
      requires tree.Valid(NULL_PAGE) && bplusRoot == NULL_PAGE
      modifies this`bplusRoot, hash, tree
      ensures IndexHolds(map[])
    {
      hide TreeHolds, HashHolds, MapOf, H.Holds, B.TreeValid;
      NothingStored([], [], 0);
      if strategy == HashStrategy {
        hash.BuildEmpty();
      } else if strategy == TreeStrategy {
        bplusRoot := tree.BuildEmpty();
      }
    }

    /** `_lookup_pointer` */
    method LookupPointer(key: Value) returns (at: Option<Ptr>)
      requires Valid() && Storable(key) && OfType(key, fields[pk].ftype)
      ensures at == if key in dir then Some(dir[key]) else None
    {
      DirectoryKeys(heap.pages, fields, pk, dir);
      if strategy == HashStrategy {
        HashFinds(hash.content, dir, fields[pk].ftype, key);
        var found, _ := hash.LookupPointer(key);
        at := found;
      } else if strategy == TreeStrategy {
        TreeFinds(MapOf(TreeContent(tree, bplusRoot)), dir, fields[pk].ftype, key);
        LookupIsMap(TreeContent(tree, bplusRoot), Rank(key));
        var ptr, _ := tree.Search(bplusRoot, Rank(key));
        at := if ptr.page < 0 then None else Some(ptr);
      } else {
        at := heap.FindLocation(pk, key);
        FoundIsDirectory(heap.pages, fields, pk, dir, key, at);
      }
    }

    /** Index maintenance for a new key; it fails, and the index stays as it was, when its page would get too long. */
    method IndexInsert(key: Value, at: Ptr) returns (ok: bool)
      requires pk < |fields| && IndexHolds(dir) && KeysOk(dir, fields[pk].ftype)
      requires Storable(key) && OfType(key, fields[pk].ftype) && key !in dir
      modifies this`bplusRoot, hash, tree
      ensures ok <==> old(HasRoom(key))
      ensures IndexHolds(if ok then dir[key := at] else dir)
    {
      hide EncodeKey, Rank, MapOf, Storable, OfType, KeysOk, TreeHolds, HashHolds;
      ghost var t := fields[pk].ftype;
      if strategy == HashStrategy {
        HashFinds(hash.content, dir, t, key);
        HashPut(hash.content, dir, t, key, at);
        var stored, _ := hash.Insert(key, at);
        ok := stored;
      } else if strategy == TreeStrategy {
        ghost var es := TreeContent(tree, bplusRoot);
        TreeFinds(MapOf(es), dir, t, key);
        TreePut(MapOf(es), dir, t, key, at);
        LookupIsMap(es, Rank(key));
        InsertIsMap(es, Rank(key), at);
        var stored, root, _ := tree.Insert(bplusRoot, Rank(key), at);
        bplusRoot, ok := root, stored;
      } else {
        ok := true;
      }
    }

    /** Index maintenance for a key that goes; the entry is always there. */
    method IndexDelete(key: Value)
      requires pk < |fields| && IndexHolds(dir) && KeysOk(dir, fields[pk].ftype) && key in dir
      modifies hash, tree
      ensures IndexHolds(dir - {key})
    {
      hide EncodeKey, Rank, MapOf, TreeHolds, HashHolds;
      ghost var t := fields[pk].ftype;
      if strategy == HashStrategy {
        HashFinds(hash.content, dir, t, key);
        HashDrop(hash.content, dir, t, key);
        var ok, _ := hash.DeleteKey(key);
        assert ok;
      } else if strategy == TreeStrategy {
        ghost var es := TreeContent(tree, bplusRoot);
        TreeFinds(MapOf(es), dir, t, key);
        TreeDrop(MapOf(es), dir, t, key);
        LookupIsMap(es, Rank(key));
        ContentSorted(tree, bplusRoot);
        RemoveIsMap(es, Rank(key));
        var ok, _ := tree.Delete(bplusRoot, Rank(key));
        assert ok;
      }
    }

    /** `create_record`: a row of the wrong shape, with a key in use or whose slot reaches past the end of
        its page leaves the relation as it was. Where only the index has no room, the row stays behind in its slot. */
    method CreateRecord(values: Row) returns (created: bool, ghost orphan: Option<Ptr>)
      requires Valid() && PlainRow(values)
      modifies this, heap, hash, tree
      ensures created <==> && RowOk(values, fields) && values[pk] !in old(Relation()) && old(HasRoom(values[pk]))
                           && SlotFits(heap.pageSize, Target(old(heap.pages), heap.cap, 0).slot, heap.recordSize)
      ensures orphan.Some? <==> && RowOk(values, fields) && values[pk] !in old(Relation()) && !old(HasRoom(values[pk]))
                                && SlotFits(heap.pageSize, Target(old(heap.pages), heap.cap, 0).slot, heap.recordSize)
      ensures Valid() <==> orphan.None?
      ensures orphan.None? ==> Relation() == if created then old(Relation())[values[pk] := values] else old(Relation())
      ensures dir == if created then old(dir)[values[pk] := Target(old(heap.pages), heap.cap, 0)] else old(dir)
      ensures orphan.Some? ==> IndexHolds(dir) && Orphan(old(heap.pages), heap.pages, dir, pk, values, orphan.value)
      ensures numRecords == old(numRecords) + if created then 1 else 0
    {
      hide Directory, IndexOver, KeysOk, Cell, RelationOf, Target, SlotFits, Storable, TakesKey, Orphan;
      orphan := None;
      if !RowOk(values, fields) {
        return false, None;
      }
      var key := values[pk];
      RowKey(values, fields, pk);
      DirectoryKeys(heap.pages, fields, pk, dir);
      SameKeys(heap.pages, dir);
      var dup := LookupPointer(key);
      if dup.Some? {
        return false, None;
      }
      created, orphan := StoreRow(values);
    }

    /** The row goes into the heap, and its key into the index. */
    method StoreRow(values: Row) returns (stored: bool, ghost orphan: Option<Ptr>)
      requires Valid() && PlainRow(values) && RowOk(values, fields) && values[pk] !in dir
      modifies this, heap, hash, tree
      ensures stored <==> && SlotFits(heap.pageSize, Target(old(heap.pages), heap.cap, 0).slot, heap.recordSize)
                          && old(HasRoom(values[pk]))
      ensures orphan.Some? <==> && SlotFits(heap.pageSize, Target(old(heap.pages), heap.cap, 0).slot, heap.recordSize)
                                && !old(HasRoom(values[pk]))
      ensures Valid() <==> orphan.None?
      ensures orphan.None? ==> Relation() == if stored then old(Relation())[values[pk] := values] else old(Relation())
      ensures dir == if stored then old(dir)[values[pk] := Target(old(heap.pages), heap.cap, 0)] else old(dir)
      ensures orphan.Some? ==> IndexHolds(dir) && Orphan(old(heap.pages), heap.pages, dir, pk, values, orphan.value)
      ensures numRecords == old(numRecords) + if stored then 1 else 0
    {
      hide Directory, IndexOver, KeysOk, Cell, RelationOf, Target, SlotFits, Storable, OfType, TakesKey, Orphan;
      orphan := None;
      var key := values[pk];
      ghost var pages0 := heap.pages;
      DirectoryKeys(heap.pages, fields, pk, dir);
      RowKey(values, fields, pk);
      var at := heap.Insert(values);
      if at.None? {
        DirectorySame(pages0, heap.pages, fields, pk, dir);
        assert IndexHolds(dir);
        return false, None;
      }
      DirectoryPut(pages0, heap.pages, fields, pk, dir, at.value, values);
      OrphanBreaks(pages0, heap.pages, fields, pk, dir, values, at.value);
      assert IndexHolds(dir);
      var ok := IndexInsert(key, at.value);
      if !ok {
        return false, at;
      }
      dir := dir[key := at.value];
      numRecords := numRecords + 1;
      return true, None;
    }

    /** `delete_record`: the index entry first, then the slot. */
    method DeleteRecord(key: Value) returns (deleted: bool)
      requires Valid() && Plain(key)
      modifies this, heap, hash, tree
      ensures Valid()
      ensures deleted <==> key in old(Relation())
      ensures Relation() == old(Relation()) - {key} && dir == old(dir) - {key}
      ensures numRecords == old(numRecords) - if deleted then 1 else 0
    {
      hide Directory, IndexOver, KeysOk, Cell, FieldOk, Plain, Storable, RelationOf;
      DirectoryKeys(heap.pages, fields, pk, dir);
      KeyFits(dir, fields[pk].ftype, key);
      SameKeys(heap.pages, dir);
      if !FieldOk(key, fields[pk].ftype) {
        return false;
      }
      var found := LookupPointer(key);
      if found.None? {
        return false;
      }
      RemoveRow(key, found.value);
      return true;
    }

    method RemoveRow(key: Value, at: Ptr)
      requires Valid() && key in dir && at == dir[key]
      modifies this, heap, hash, tree
      ensures Valid() && Relation() == old(Relation()) - {key} && numRecords == old(numRecords) - 1
      ensures dir == old(dir) - {key}
    {
      hide Directory, IndexOver, KeysOk, Cell, RelationOf;
      ghost var pages0 := heap.pages;
      DirectoryKeys(heap.pages, fields, pk, dir);
      SlotOf(heap, fields, pk, dir, key);
      IndexDelete(key);
      var ok := heap.DeleteAt(at);
      assert ok;
      DirectoryDrop(pages0, heap.pages, fields, pk, dir, key);
      OneKeyLess(dir, key);
      ghost var dir1 := dir - {key};
      assert IndexHolds(dir1);
      dir := dir1;
      numRecords := numRecords - 1;
      assert IndexHolds(dir1);
    }

    /** `search_record` */
    method SearchRecord(key: Value) returns (row: Option<Row>)
      requires Valid() && Plain(key)
      ensures row == if key in Relation() then Some(Relation()[key]) else None
    {
      DirectoryKeys(heap.pages, fields, pk, dir);
      if !FieldOk(key, fields[pk].ftype) {
        return None;
      }
      if strategy == HeapStrategy {
        ghost var at;
        row, at := heap.SearchByPk(pk, key);
        FoundIsDirectory(heap.pages, fields, pk, dir, key, if row.Some? then Some(at) else None);
        return;
      }
      var found := LookupPointer(key);
      if found.None? {
        return None;
      }
      SlotOf(heap, fields, pk, dir, key);
      row := heap.ReadRecordAt(found.value);
    }

    /** The rows a tree range search points to, fetched one by one. */
    method TreeRange(low: int, high: int) returns (records: seq<Row>, ghost ptrs: seq<Ptr>)
      requires Valid() && strategy == TreeStrategy && fields[pk].ftype == IntT
      ensures |ptrs| == |records| && forall i, j :: 0 <= i < j < |ptrs| ==> ptrs[i] != ptrs[j]
      ensures forall i :: 0 <= i < |ptrs| ==> Cell(heap.pages, ptrs[i]) == Some(records[i]) && InRange(Some(records[i]), pk, low, high)
      ensures forall q :: InRange(Cell(heap.pages, q), pk, low, high) ==> q in ptrs
    {
      hide Directory, TreeHolds, HashHolds, Range, MapOf, B.TreeValid, Cell, RowAt;
      ghost var es := TreeContent(tree, bplusRoot);
      ContentSorted(tree, bplusRoot);
      TreeRangeHits(es, heap.pages, fields, pk, dir, low, high);
      EntryPtrsDistinct(es, heap.pages, fields, pk, dir);
      RangeDistinct(es, low, high);
      var found, _, _ := tree.RangeSearch(bplusRoot, low, high);
      ptrs := found;
      HitsOccupied(heap.pages, found, pk, low, high);
      records := FetchRows(found);
    }

    method FetchRows(found: seq<Ptr>) returns (records: seq<Row>)
      requires heap.Valid() && forall i :: 0 <= i < |found| ==> Cell(heap.pages, found[i]).Some?
      ensures |records| == |found| && forall i :: 0 <= i < |found| ==> Cell(heap.pages, found[i]) == Some(records[i])
    {
      records := [];
      for i := 0 to |found|
        invariant |records| == i && forall j :: 0 <= j < i ==> Cell(heap.pages, found[j]) == Some(records[j])
      {
        assert Cell(heap.pages, found[i]).Some?;
        var row := heap.ReadRecordAt(found[i]);
        if row.Some? {
          records := records + [row.value];
        }
      }
    }

    /** `range_search` on an integer field: the one answer there is, under every strategy. */
    method RangeSearch(field: nat, low: int, high: int) returns (rows: Option<seq<Row>>)
      requires Valid()
      ensures rows.Some? <==> field < |fields| && fields[field].ftype == IntT
      ensures rows.Some? ==> IsAnswer(rows.value, Relation(), field, pk, low, high) && Ascending(rows.value, field, pk)
    {
      if field >= |fields| || fields[field].ftype != IntT {
        return None;
      }
      var records;
      ghost var at;
      if strategy == TreeStrategy && pk == field {
        records, at := TreeRange(low, high);
      } else {
        records, at := heap.RangeSearch(field, low, high);
      }
      hide IndexOver, Directory, Cell, IsAnswer, Ascending, KeysOk;
      ScanAnswers(heap.pages, fields, pk, dir, field, low, high, records, at);
      DirectoryKeys(heap.pages, fields, pk, dir);
      AnswerAscends(OrderRange(records, field, pk), heap.pages, fields, pk, dir, field, low, high);
      return Some(OrderRange(records, field, pk));
    }
  }

  lemma ContentSorted(tree: B.BPlusTree, root: int)
    requires tree.Valid(root)
    ensures Sorted(TreeContent(tree, root))
  {
    if tree.tree.Some? {
      BTree.TreeSorted(tree.tree.value, None, None);
    }
  }

  lemma OneKeyLess(dir: map<Value, Ptr>, key: Value)
    requires key in dir
    ensures |dir - {key}| == |dir| - 1
  {
    assert (dir - {key}).Keys == dir.Keys - {key};
  }

  /** A key of the wrong type or size is no key of the relation. */
  lemma KeyFits(dir: map<Value, Ptr>, t: FieldType, key: Value)
    requires KeysOk(dir, t) && Plain(key)
    ensures key in dir ==> FieldOk(key, t)
    ensures FieldOk(key, t) ==> Storable(key) && OfType(key, t)
  {
  }

  lemma SameKeys(pages: seq<Slots<Row>>, dir: map<Value, Ptr>)
    requires forall k :: k in dir ==> Cell(pages, dir[k]).Some?
    ensures RelationOf(pages, dir).Keys == dir.Keys
  {
  }

  lemma SlotOf(heap: Heap, fields: seq<Field>, pk: nat, dir: map<Value, Ptr>, key: Value)
    requires heap.Valid() && Directory(heap.pages, fields, pk, dir) && key in dir
    ensures 0 <= dir[key].page < |heap.pages| && 0 <= dir[key].slot < MAX_SLOTS
    ensures Cell(heap.pages, dir[key]).Some?
  {
    assert HasKey(Cell(heap.pages, dir[key]), pk, key);
  }

  lemma NothingStored(pages: seq<Slots<Row>>, fields: seq<Field>, pk: nat)
    requires pages == []
    ensures Directory(pages, fields, pk, map[]) && TreeHolds(map[], map[]) && HashHolds(map[], map[])
    ensures MapOf([]) == map[]
  {
  }

  lemma EmptyRelation(pages: seq<Slots<Row>>)
    ensures RelationOf(pages, map[]) == map[]
  {
  }

  ghost function TreeContent(tree: B.BPlusTree, root: int): seq<Entry>
    reads tree
    requires tree.Valid(root)
  {
    tree.Content()
  }

  /** The first slot with the key is the directory's. */
  lemma FoundIsDirectory(pages: seq<Slots<Row>>, fields: seq<Field>, pk: nat, dir: map<Value, Ptr>, key: Value, at: Option<Ptr>)
    requires Directory(pages, fields, pk, dir)
    requires at.Some? ==> HasKey(Cell(pages, at.value), pk, key)
    requires at.None? ==> forall q :: !HasKey(Cell(pages, q), pk, key)
    ensures at == if key in dir then Some(dir[key]) else None
  {
    hide Cell;
    if key in dir {
      assert HasKey(Cell(pages, dir[key]), pk, key);
    }
    if at.Some? {
      assert RowAt(Cell(pages, at.value).value, fields, pk, dir, at.value);
    }
  }

  // ---------------------------------------------------------------- where the index runs out of room

  /** On pages of the right size the index takes every key, whatever is stored. */
  lemma RoomyIndex(m: Manager, key: Value)
    requires m.Valid() && IndexFits(m.strategy, m.fields[m.pk].ftype, m.heap.pageSize)
    ensures m.HasRoom(key)
  {
    hide Directory, TreeHolds, HashHolds, B.LeafRoom, B.Roomy, SlotOffset, H.ChainSlot;
    if m.strategy == HashStrategy {
      var b := HashKey(key, m.hash.buckets);
      H.LayoutChain(m.hash.pages, m.hash.chains, m.hash.buckets, b);
      var s := H.ChainSlot(m.hash.pages, m.hash.chains[b], 0);
      OffsetGrows(s, MAX_SLOTS - 1, H.ENTRY_SIZE);
    } else if m.strategy == TreeStrategy {
      var t := m.tree.tree;
      B.RoomyLeaf(m.tree.pageSize, m.tree.keySize, if t.None? then 0 else |BTree.LeafFor(t.value, Rank(key)).keys|);
    }
  }

  /** The exact page sizes: ten hash entries of 40 bytes, or four leaf entries, after the header. */
  lemma PageSizes(pageSize: nat, t: FieldType)
    ensures IndexFits(HashStrategy, t, pageSize) <==> pageSize >= 432
    ensures IndexFits(HashStrategy, t, pageSize) <==> forall s :: 0 <= s < MAX_SLOTS ==> SlotFits(pageSize, s, H.ENTRY_SIZE)
    ensures IndexFits(TreeStrategy, t, pageSize) <==> pageSize >= if t == IntT then 80 else 192
    ensures IndexFits(TreeStrategy, t, pageSize)
       <==> forall n: nat :: n <= B.MaxKeys(pageSize, N.FieldSize(t)) ==> N.NodeFits(pageSize, n, t)
  {
    H.BucketFits(pageSize);
    N.NodesFit(pageSize, t);
  }

  lemma {:induction false} MapSize(es: seq<Entry>)
    requires Sorted(es)
    ensures |MapOf(es)| == |es| && forall k :: k in MapOf(es) ==> exists i :: 0 <= i < |es| && es[i].key == k
  {
    if es != [] {
      var rest := es[1..];
      MapSize(rest);
      var m := MapOf(rest);
      forall k | k in m ensures k != es[0].key && exists i :: 0 <= i < |es| && es[i].key == k {
        var i :| 0 <= i < |rest| && rest[i].key == k;
        assert es[i + 1].key == k;
      }
      assert MapOf(es).Keys == m.Keys + {es[0].key};
      assert es[0].key in MapOf(es);
    }
  }

  lemma {:induction false} TreeSize(m: map<int, Ptr>, dir: map<Value, Ptr>, t: FieldType)
    requires TreeHolds(m, dir) && KeysOk(dir, t)
    ensures |m| == |dir|
    decreases |dir|
  {
    hide Rank;
    if dir == map[] {
      NoRanks(m);
    } else {
      var k := AnyKey(dir);
      TreeDrop(m, dir, t, k);
      OneKeyLess(dir, k);
      assert Rank(k) in m;
      assert (m - {Rank(k)}).Keys == m.Keys - {Rank(k)};
      TreeSize(m - {Rank(k)}, dir - {k}, t);
    }
  }

  lemma AnyKey<K, V>(m: map<K, V>) returns (k: K)
    requires m != map[]
    ensures k in m
  {
    assert m.Keys != {};
    k :| k in m.Keys;
  }

  lemma NoRanks(m: map<int, Ptr>)
    requires TreeHolds(m, map[])
    ensures m == map[]
  {
    forall r ensures r !in m {
      assert r in m ==> HasRank(map[], r);
    }
  }

  /** On smaller pages the tree stays a single leaf, and what it takes depends on the number of rows alone. */
  lemma SmallTree(m: Manager, key: Value)
    requires m.Valid() && m.strategy == TreeStrategy && !IndexFits(TreeStrategy, m.fields[m.pk].ftype, m.heap.pageSize)
    ensures m.HasRoom(key) <==> HEADER_SIZE + (m.numRecords + 1) * (m.tree.keySize + 8) <= m.heap.pageSize
  {
    hide Directory, TreeHolds, HashHolds, MapOf, Rank, KeysOk, B.TreeValid, H.Holds;
    DirectoryKeys(m.heap.pages, m.fields, m.pk, m.dir);
    ContentSorted(m.tree, m.bplusRoot);
    var es := TreeContent(m.tree, m.bplusRoot);
    TreeSize(MapOf(es), m.dir, m.fields[m.pk].ftype);
    MapSize(es);
    B.MaxKeysBound(m.tree.pageSize, m.tree.keySize);
    SmallLeaf(m.tree, m.bplusRoot, Rank(key));
  }

  lemma SmallLeaf(tree: B.BPlusTree, root: int, r: int)
    requires tree.Valid(root) && !B.Roomy(tree.pageSize, tree.keySize)
    ensures tree.HasRoom(r) <==> HEADER_SIZE + (|tree.Content()| + 1) * (tree.keySize + 8) <= tree.pageSize
  {
    hide B.MaxKeys, B.AllFit;
    B.MaxKeysBound(tree.pageSize, tree.keySize);
    if tree.tree.Some? {
      var t := tree.tree.value;
      B.LeafCount(tree.nodes, t, tree.maxKeys);
      B.StoredFits(tree.nodes, t, NULL_PAGE, tree.pageSize, tree.keySize);
      if |t.keys| >= 4 {
        B.FullLeafRoomy(tree.pageSize, tree.keySize, t.keys, t.vals, NULL_PAGE);
      }
    }
  }

  /** Four rows with text keys, one to a heap page, on pages of 191 bytes: the fourth stays in the heap without an
      index entry. */
  method FourthRow(rows: seq<Row>) returns (created: bool, ghost orphan: Option<Ptr>)
    requires |rows| == 4
    requires forall i :: 0 <= i < 4 ==> |rows[i]| == 1 && RowOk(rows[i], [Field("k", StrT)]) && PlainRow(rows[i])
    requires forall i, j :: 0 <= i < j < 4 ==> rows[i][0] != rows[j][0]
    ensures !created && orphan.Some?
  {
    hide Directory, IndexOver, TakesKey, RelationOf, Target, Orphan, Plain, OfType;
    var m := new Manager(TreeStrategy, [Field("k", StrT)], 1, 1, 1, 191);
    OneTextField();
    for i := 0 to 3
      invariant m.Valid() && fresh({m, m.heap, m.hash, m.tree}) && m.numRecords == i
      invariant m.strategy == TreeStrategy && m.fields == [Field("k", StrT)] && m.pk == 0
      invariant m.heap.pageSize == 191 && m.heap.recordSize == 32 && m.heap.cap == 1
      invariant forall j :: i <= j < 4 ==> rows[j][0] !in m.Relation()
    {
      SmallTree(m, rows[i][0]);
      var ok, _ := m.CreateRecord(rows[i]);
      assert ok;
    }
    SmallTree(m, rows[3][0]);
    created, orphan := m.CreateRecord(rows[3]);
  }

  lemma OneTextField()
    ensures N.RecordSize(Types([Field("k", StrT)])) == 32 && N.FieldSize(StrT) == 32
    ensures !IndexFits(TreeStrategy, StrT, 191)
  {
    assert Types([Field("k", StrT)]) == [StrT];
    assert N.RecordSize([StrT][1..]) == 0;
  }
}
