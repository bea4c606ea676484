/** Records and B+ tree nodes as bytes: encoding and decoding, and when every node a tree can hold
    fits its page. */
module NodeLayout {
  import opened Pages
  import opened Entries
  import opened Values
  import opened HeapScan
  import opened SlottedPages
  import opened PageLayout
  import B = BPlusTree

  // ---------------------------------------------------------------- fields and records

  function FieldSize(t: FieldType): nat {
    if t == IntT then 4 else STR_FIELD_SIZE
  }

  /** `encode_int`, `encode_str`, `_enc_key` */
  function EncodeField(v: Value): (b: Bytes)
    requires Storable(v)
    ensures v.IntV? ==> |b| == 4
    ensures v.StrV? ==> |b| == STR_FIELD_SIZE
  {
    match v
    case IntV(n) => Enc32(n)
    case StrV(s) => ToBytes(s) + Zeros(STR_FIELD_SIZE - |s|)
  }

  /** `decode_int`, `decode_str`, `_dec_key` */
  function DecodeField(b: Bytes, t: FieldType): Value
    requires |b| == FieldSize(t)
  {
    if t == IntT then IntV(Dec32(b)) else StrV(ToText(Stripped(b)))
  }

  lemma FieldRoundTrip(v: Value, t: FieldType)
    requires Storable(v) && OfType(v, t)
    ensures |EncodeField(v)| == FieldSize(t) && DecodeField(EncodeField(v), t) == v
  {
    match v
    case IntV(n) => Int32RoundTrip(n);
    case StrV(s) =>
      StripPadding(ToBytes(s), STR_FIELD_SIZE - |s|);
      assert ToText(ToBytes(s)) == s;
  }

  ghost predicate StorableRow(row: Row, types: seq<FieldType>) {
    |row| == |types| && forall i :: 0 <= i < |row| ==> Storable(row[i]) && OfType(row[i], types[i])
  }

  /** `record_size_for` */
  function RecordSize(types: seq<FieldType>): nat {
    if types == [] then 0 else FieldSize(types[0]) + RecordSize(types[1..])
  }

  /** `encode_record` */
  ghost function EncodeRecord(row: Row, types: seq<FieldType>): Bytes
    requires StorableRow(row, types)
  {
    if row == [] then [] else EncodeField(row[0]) + EncodeRecord(row[1..], types[1..])
  }

  /** `decode_record`: field after field from an offset that moves on. */
  method DecodeRecord(blob: Bytes, types: seq<FieldType>, ghost row: Row) returns (out: Row)
    requires StorableRow(row, types) && EncodeRecord(row, types) <= blob
    ensures out == row
  {
    hide EncodeRecord, StorableRow, DecodeField, FieldSize;
    out := [];
    var off := 0;
    assert row[0..] == row && types[0..] == types && blob[0..] == blob;
    SameLength(row, types);
    for i := 0 to |types|
      invariant 0 <= off <= |blob| && out == row[..i]
      invariant StorableRow(row[i..], types[i..]) && EncodeRecord(row[i..], types[i..]) <= blob[off..]
    {
      FieldStep(blob, off, row, types, i);
      var size := FieldSize(types[i]);
      out := out + [DecodeField(blob[off..off + size], types[i])];
      off := off + size;
    }
    assert row[..|types|] == row;
  }

  lemma SameLength(row: Row, types: seq<FieldType>)
    requires StorableRow(row, types)
    ensures |row| == |types|
  {
  }

  /** The field at the offset, and the rest of the record behind it. */
  lemma FieldStep(blob: Bytes, off: nat, row: Row, types: seq<FieldType>, i: nat)
    requires i < |row| == |types| && off <= |blob|
    requires StorableRow(row[i..], types[i..]) && EncodeRecord(row[i..], types[i..]) <= blob[off..]
    ensures var size := FieldSize(types[i]);
            && off + size <= |blob| && DecodeField(blob[off..off + size], types[i]) == row[i]
            && StorableRow(row[i + 1..], types[i + 1..])
            && EncodeRecord(row[i + 1..], types[i + 1..]) <= blob[off + size..]
  {
    var size := FieldSize(types[i]);
    var r, ts := row[i..], types[i..];
    assert r[0] == row[i] && ts[0] == types[i] && r[1..] == row[i + 1..] && ts[1..] == types[i + 1..];
    FieldRoundTrip(r[0], ts[0]);
    assert StorableRow(r[1..], ts[1..]);
    NextField(blob[off..], EncodeField(row[i]), EncodeRecord(row[i + 1..], types[i + 1..]));
    hide EncodeField, DecodeField, FieldSize, StorableRow, EncodeRecord;
    assert blob[off..][..size] == blob[off..off + size] && blob[off..][size..] == blob[off + size..];
  }

  lemma NextField(b: Bytes, first: Bytes, rest: Bytes)
    requires first + rest <= b
    ensures |first| <= |b| && b[..|first|] == first && rest <= b[|first|..]
  {
    assert b[..|first|] == (first + rest)[..|first|];
    assert b[|first|..][..|rest|] == (first + rest)[|first|..];
  }

  lemma {:induction false} RecordSizeIs(row: Row, types: seq<FieldType>)
    requires StorableRow(row, types)
    ensures |EncodeRecord(row, types)| == RecordSize(types)
  {
    if row != [] {
      FieldRoundTrip(row[0], types[0]);
      RecordSizeIs(row[1..], types[1..]);
    }
  }

  /** Field i starts where the sizes of the fields before it add up to. */
  lemma FieldAt(row: Row, types: seq<FieldType>, i: nat)
    requires StorableRow(row, types) && i < |row|
    ensures PieceAt(EncodeRecord(row, types), RecordSize(types[..i]), EncodeField(row[i]))
  {
    hide EncodeField, FieldSize, EncodeRecord, RecordSize, PieceAt;
    FieldPiece(row, types, i);
    FieldStartIs(types, i);
  }

  function FieldStart(types: seq<FieldType>, i: nat): nat
    requires i <= |types|
  {
    if i == 0 then 0 else FieldSize(types[0]) + FieldStart(types[1..], i - 1)
  }

  lemma {:induction false} FieldStartIs(types: seq<FieldType>, i: nat)
    requires i <= |types|
    ensures FieldStart(types, i) == RecordSize(types[..i])
  {
    if i > 0 {
      FieldStartIs(types[1..], i - 1);
      assert types[..i][1..] == types[1..][..i - 1];
    }
  }

  lemma {:induction false} FieldPiece(row: Row, types: seq<FieldType>, i: nat)
    requires StorableRow(row, types) && i < |row|
    ensures Storable(row[i]) && PieceAt(EncodeRecord(row, types), FieldStart(types, i), EncodeField(row[i]))
  {
    SplitRecord(row, types);
    assert Storable(row[i]);
    hide EncodeField, StorableRow, FieldSize, EncodeRecord, PieceAt, Storable, OfType;
    var first, rest := EncodeField(row[0]), EncodeRecord(row[1..], types[1..]);
    if i > 0 {
      FieldPiece(row[1..], types[1..], i - 1);
      assert row[1..][i - 1] == row[i];
      BehindFirst(first, rest, FieldStart(types[1..], i - 1), EncodeField(row[i]));
    } else {
      AtFront(first, rest);
    }
  }

  lemma SplitRecord(row: Row, types: seq<FieldType>)
    requires StorableRow(row, types) && row != []
    ensures |row| == |types| && StorableRow(row[1..], types[1..]) && |EncodeField(row[0])| == FieldSize(types[0])
    ensures EncodeRecord(row, types) == EncodeField(row[0]) + EncodeRecord(row[1..], types[1..])
  {
    FieldRoundTrip(row[0], types[0]);
  }

  /** The bytes e lie at the offset. */
  predicate PieceAt(b: Bytes, at: nat, e: Bytes) {
    at + |e| <= |b| && b[at..at + |e|] == e
  }

  lemma AtFront(first: Bytes, rest: Bytes)
    ensures PieceAt(first + rest, 0, first)
  {
  }

  lemma BehindFirst(first: Bytes, rest: Bytes, at: nat, e: Bytes)
    requires PieceAt(rest, at, e)
    ensures PieceAt(first + rest, |first| + at, e)
  {
  }

  /** Text is padded with zeros, integers take their four bytes. */
  lemma FieldBytes(v: Value)
    requires Storable(v)
    ensures v.IntV? ==> EncodeField(v) == Enc32(v.n)
    ensures v.StrV? ==> forall i :: 0 <= i < STR_FIELD_SIZE ==>
              EncodeField(v)[i] as int == if i < |v.s| then v.s[i] as int else 0
  {
  }

  // ---------------------------------------------------------------- rows on a page

  /** The bytes of a data page hold exactly these rows. */
  ghost predicate HoldsRows(p: Bytes, rows: Slots<Row>, types: seq<FieldType>) {
    && CountsSlots(p) && |rows| == MAX_SLOTS
    && forall i :: 0 <= i < MAX_SLOTS ==> HoldsRow(SlotsOf(p, RecordSize(types))[i], rows[i], types)
  }

  ghost predicate HoldsRow(blob: Option<Bytes>, row: Option<Row>, types: seq<FieldType>) {
    match row
    case None => blob.None?
    case Some(r) => StorableRow(r, types) && blob == Some(EncodeRecord(r, types))
  }

  /** Writing a record's bytes is the slot update the heap works with. */
  lemma RowWritten(p: Bytes, rows: Slots<Row>, types: seq<FieldType>, slot: nat, row: Row)
    requires HoldsRows(p, rows, types) && StorableRow(row, types) && slot < MAX_SLOTS
    requires SlotOffset(slot, RecordSize(types)) + RecordSize(types) <= |p|
    ensures HoldsRows(WriteRecord(p, slot, EncodeRecord(row, types), RecordSize(types)), rows[slot := Some(row)], types)
  {
    hide CountsSlots, SlotAt, StorableRow, EncodeRecord, WriteRecord, SlotOffset;
    RecordSizeIs(row, types);
    WriteRecordSlots(p, slot, EncodeRecord(row, types), RecordSize(types));
  }

  lemma RowCleared(p: Bytes, rows: Slots<Row>, types: seq<FieldType>, slot: nat)
    requires HoldsRows(p, rows, types) && slot < MAX_SLOTS
    requires SlotOffset(slot, RecordSize(types)) + RecordSize(types) <= |p|
    ensures HoldsRows(ClearSlot(p, slot, RecordSize(types)), rows[slot := None], types)
  {
    hide CountsSlots, SlotAt, StorableRow, EncodeRecord, ClearSlot, SlotOffset;
    ClearSlotSlots(p, slot, RecordSize(types));
  }

  // ---------------------------------------------------------------- node entries

  ghost predicate KeysFit(keys: seq<Value>, t: FieldType) {
    forall i :: 0 <= i < |keys| ==> Storable(keys[i]) && OfType(keys[i], t)
  }

  predicate PtrsOk(vals: seq<Ptr>) {
    forall i :: 0 <= i < |vals| ==> Int32(vals[i].page) && Int32(vals[i].slot)
  }

  /** One leaf entry: key, data page, data slot. */
  function EntryBlob(k: Value, p: Ptr, t: FieldType): (b: Bytes)
    requires Storable(k) && OfType(k, t) && Int32(p.page) && Int32(p.slot)
    ensures |b| == FieldSize(t) + 8
  {
    EncodeField(k) + Enc32(p.page) + Enc32(p.slot)
  }

  /** The body of a leaf: its entries, one after the other. */
  ghost function LeafBody(keys: seq<Value>, vals: seq<Ptr>, t: FieldType): (b: Bytes)
    requires |keys| == |vals| && KeysFit(keys, t) && PtrsOk(vals)
    ensures |b| == BodySize(|keys|, FieldSize(t) + 8)
  {
    if keys == [] then [] else EntryBlob(keys[0], vals[0], t) + LeafBody(keys[1..], vals[1..], t)
  }

  function BodySize(n: nat, entry: nat): nat {
    if n == 0 then 0 else entry + BodySize(n - 1, entry)
  }

  lemma {:induction false} BodySizeIs(n: nat, entry: nat)
    ensures BodySize(n, entry) == n * entry
  {
    if n > 0 {
      BodySizeIs(n - 1, entry);
      assert n * entry == (n - 1) * entry + entry;
    }
  }

  /** Entry i is i entry sizes into the body. */
  lemma EntryAt(keys: seq<Value>, vals: seq<Ptr>, t: FieldType, i: nat)
    requires i < |keys| == |vals| && KeysFit(keys, t) && PtrsOk(vals)
    ensures PieceAt(LeafBody(keys, vals, t), i * (FieldSize(t) + 8), EntryBlob(keys[i], vals[i], t))
  {
    hide FieldSize, KeysFit, PtrsOk, LeafBody, EntryBlob, OfType, Storable, Int32, PieceAt;
    EntryPiece(keys, vals, t, i);
    BodySizeIs(i, FieldSize(t) + 8);
  }

  lemma {:induction false} EntryPiece(keys: seq<Value>, vals: seq<Ptr>, t: FieldType, i: nat)
    requires i < |keys| == |vals| && KeysFit(keys, t) && PtrsOk(vals)
    ensures Storable(keys[i]) && OfType(keys[i], t) && Int32(vals[i].page) && Int32(vals[i].slot)
    ensures PieceAt(LeafBody(keys, vals, t), BodySize(i, FieldSize(t) + 8), EntryBlob(keys[i], vals[i], t))
  {
    SplitLeafBody(keys, vals, t);
    hide FieldSize, KeysFit, PtrsOk, LeafBody, EntryBlob, OfType, Storable, Int32, PieceAt;
    var first, rest := EntryBlob(keys[0], vals[0], t), LeafBody(keys[1..], vals[1..], t);
    if i > 0 {
      EntryPiece(keys[1..], vals[1..], t, i - 1);
      assert keys[1..][i - 1] == keys[i] && vals[1..][i - 1] == vals[i];
      BehindFirst(first, rest, BodySize(i - 1, FieldSize(t) + 8), EntryBlob(keys[i], vals[i], t));
    } else {
      AtFront(first, rest);
    }
  }

  lemma SplitLeafBody(keys: seq<Value>, vals: seq<Ptr>, t: FieldType)
    requires |keys| == |vals| > 0 && KeysFit(keys, t) && PtrsOk(vals)
    ensures Storable(keys[0]) && OfType(keys[0], t) && Int32(vals[0].page) && Int32(vals[0].slot)
    ensures KeysFit(keys[1..], t) && PtrsOk(vals[1..])
    ensures LeafBody(keys, vals, t) == EntryBlob(keys[0], vals[0], t) + LeafBody(keys[1..], vals[1..], t)
  {
  }

  // ---------------------------------------------------------------- leaves

  // page_type of the two kinds of node
  const INNER_NODE: byte := 1
  const LEAF_NODE: byte := 2

  /** A page that reads as this leaf; the reserved bytes of the header may hold any pageLSN. */
  ghost predicate HoldsLeaf(p: Bytes, keys: seq<Value>, vals: seq<Ptr>, next: int, t: FieldType)
    requires |keys| == |vals| && KeysFit(keys, t) && PtrsOk(vals)
  {
    && |p| >= HEADER_SIZE && TypeOf(p) == LEAF_NODE && CountOf(p) == |keys| && LinkOf(p) == next
    && LeafBody(keys, vals, t) <= p[HEADER_SIZE..]
  }

  /** `pack_header` */
  function PackHeader(pageType: byte, pid: int, count: nat, next: int): (h: Bytes)
    requires Int32(pid) && Int32(next)
    ensures |h| == HEADER_SIZE
  {
    [pageType] + Enc32(pid) + LeBytes(count, 4) + Zeros(10) + Enc32(next) + Zeros(9)
  }

  lemma HeaderFields(h: Bytes, pageType: byte, pid: int, count: nat, next: int, rest: Bytes)
    requires Int32(pid) && Int32(next) && count < 0x1_0000_0000 && h == PackHeader(pageType, pid, count, next)
    ensures TypeOf(h + rest) == pageType && IdOf(h + rest) == pid
    ensures CountOf(h + rest) == count && LinkOf(h + rest) == next
  {
    var p := h + rest;
    assert p[0] == pageType && p[PAGE_ID..PAGE_ID + 4] == Enc32(pid);
    assert p[COUNT..COUNT + 4] == LeBytes(count, 4);
    assert p[NEXT..NEXT + 4] == Enc32(next);
    assert Pow256(4) == 0x1_0000_0000;
    LeRoundTrip(count, 4);
    Int32RoundTrip(next);
    Int32RoundTrip(pid);
  }

  /** What is left of the page after n bytes. */
  function Room(pageSize: nat, n: nat): nat {
    if n <= pageSize then pageSize - n else 0
  }

  /** Writing b at the end of what has been written so far. */
  lemma PutNext(done: Bytes, b: Bytes, pageSize: nat)
    ensures Put(done + Zeros(Room(pageSize, |done|)), |done|, |done| + |b|, b)
         == done + b + Zeros(Room(pageSize, |done| + |b|))
  {
    var p := done + Zeros(Room(pageSize, |done|));
    assert p[..Min(|done|, |p|)] == done;
    assert p[Min(|done| + |b|, |p|)..] == Zeros(Room(pageSize, |done| + |b|));
  }

  lemma HeaderPut(header: Bytes, pageSize: nat)
    requires |header| == HEADER_SIZE <= pageSize
    ensures Put(Zeros(pageSize), 0, HEADER_SIZE, header) == header + Zeros(Room(pageSize, |header|))
  {
  }

  lemma PutTwice(done: Bytes, a: Bytes, b: Bytes, pageSize: nat)
    ensures var p1 := Put(done + Zeros(Room(pageSize, |done|)), |done|, |done| + |a|, a);
            Put(p1, |done| + |a|, |done| + |a| + |b|, b) == done + a + b + Zeros(Room(pageSize, |done + a + b|))
    ensures |done + a + b| == |done| + |a| + |b|
  {
    hide Put, Room;
    PutNext(done, a, pageSize);
    PutNext(done + a, b, pageSize);
  }

  /** `_write_leaf`: a page of the configured size exactly when the entries fit, and then the leaf. */
  method WriteLeaf(pageSize: nat, pid: int, keys: seq<Value>, vals: seq<Ptr>, next: int, t: FieldType) returns (page: Bytes)
    requires pageSize >= HEADER_SIZE && Int32(pid) && Int32(next)
    requires |keys| == |vals| < 0x1_0000_0000 && KeysFit(keys, t) && PtrsOk(vals)
    ensures |page| == pageSize <==> HEADER_SIZE + |keys| * (FieldSize(t) + 8) <= pageSize
    ensures HoldsLeaf(page, keys, vals, next, t) && page[0] == 2 && IdOf(page) == pid
  {
    hide LeafBody, EntryBlob, EncodeField, Enc32, Put, Room, FieldSize, PackHeader, KeysFit, PtrsOk, HoldsLeaf, Written, Zeros;
    var header := PackHeader(LEAF_NODE, pid, |keys|, next);
    page := Put(Zeros(pageSize), 0, HEADER_SIZE, header);
    var off := HEADER_SIZE;
    ghost var done := header;
    HeaderPut(header, pageSize);
    WrittenNothing(header, keys, vals, t);
    for i := 0 to |keys|
      invariant off == |done| >= HEADER_SIZE && page == done + Zeros(Room(pageSize, |done|))
      invariant Written(header, keys, vals, t, i, done)
    {
      WrittenNext(header, keys, vals, t, i, done);
      var blob, ptr := EncodeField(keys[i]), Enc32(vals[i].page) + Enc32(vals[i].slot);
      PutTwice(done, blob, ptr, pageSize);
      page := Put(page, off, off + FieldSize(t), blob);
      off := off + FieldSize(t);
      page := Put(page, off, off + 8, ptr);
      off := off + 8;
      done := done + blob + ptr;
    }
    AllWritten(keys, vals, t, done, header);
    PageWritten(page, header, pid, keys, vals, next, t, pageSize);
  }

  /** The header and the entries before number i. */
  ghost predicate Written(header: Bytes, keys: seq<Value>, vals: seq<Ptr>, t: FieldType, i: nat, done: Bytes) {
    && |keys| == |vals| && i <= |keys| && KeysFit(keys, t) && PtrsOk(vals) && KeysFit(keys[i..], t) && PtrsOk(vals[i..])
    && header + LeafBody(keys, vals, t) == done + LeafBody(keys[i..], vals[i..], t)
  }

  lemma WrittenNothing(header: Bytes, keys: seq<Value>, vals: seq<Ptr>, t: FieldType)
    requires |keys| == |vals| && KeysFit(keys, t) && PtrsOk(vals)
    ensures Written(header, keys, vals, t, 0, header)
  {
    assert keys[0..] == keys && vals[0..] == vals;
  }

  lemma WrittenNext(header: Bytes, keys: seq<Value>, vals: seq<Ptr>, t: FieldType, i: nat, done: Bytes)
    requires Written(header, keys, vals, t, i, done) && i < |keys|
    ensures |vals| == |keys| && Storable(keys[i]) && OfType(keys[i], t) && Int32(vals[i].page) && Int32(vals[i].slot)
    ensures var blob, ptr := EncodeField(keys[i]), Enc32(vals[i].page) + Enc32(vals[i].slot);
            && |blob| == FieldSize(t) && |ptr| == 8 && Written(header, keys, vals, t, i + 1, done + blob + ptr)
  {
    hide LeafBody, EncodeField, Enc32, FieldSize;
    NextEntry(keys, vals, t, i);
    EntryParts(keys[i], vals[i], t);
    hide EntryBlob;
    var blob, ptr := EncodeField(keys[i]), Enc32(vals[i].page) + Enc32(vals[i].slot);
    Assoc(done, blob, ptr);
    Assoc(done, blob + ptr, LeafBody(keys[i + 1..], vals[i + 1..], t));
  }

  lemma Assoc(a: Bytes, b: Bytes, c: Bytes)
    ensures a + b + c == a + (b + c)
  {
  }

  lemma EntryParts(k: Value, p: Ptr, t: FieldType)
    requires Storable(k) && OfType(k, t) && Int32(p.page) && Int32(p.slot)
    ensures |EncodeField(k)| == FieldSize(t) && |Enc32(p.page) + Enc32(p.slot)| == 8
    ensures EntryBlob(k, p, t) == EncodeField(k) + (Enc32(p.page) + Enc32(p.slot))
    ensures var n := FieldSize(t); var b := EntryBlob(k, p, t);
            b[..n] == EncodeField(k) && b[n..n + 4] == Enc32(p.page) && b[n + 4..n + 8] == Enc32(p.slot)
  {
    hide EncodeField, Enc32, FieldSize;
    FieldRoundTrip(k, t);
    ThreePieces(EncodeField(k), Enc32(p.page), Enc32(p.slot));
  }

  lemma ThreePieces(a: Bytes, b: Bytes, c: Bytes)
    ensures var s := a + b + c;
            && s == a + (b + c)
            && s[..|a|] == a && s[|a|..|a| + |b|] == b && s[|a| + |b|..|a| + |b| + |c|] == c
  {
  }

  lemma AllWritten(keys: seq<Value>, vals: seq<Ptr>, t: FieldType, done: Bytes, header: Bytes)
    requires Written(header, keys, vals, t, |keys|, done)
    ensures |keys| == |vals| && KeysFit(keys, t) && PtrsOk(vals) && done == header + LeafBody(keys, vals, t)
  {
    assert LeafBody(keys[|keys|..], vals[|keys|..], t) == [];
  }

  /** The finished page: its size, and that it holds the leaf. */
  lemma PageWritten(page: Bytes, header: Bytes, pid: int, keys: seq<Value>, vals: seq<Ptr>, next: int, t: FieldType,
                    pageSize: nat)
    requires Int32(pid) && Int32(next) && header == PackHeader(LEAF_NODE, pid, |keys|, next) && pageSize >= HEADER_SIZE
    requires |keys| == |vals| < 0x1_0000_0000 && KeysFit(keys, t) && PtrsOk(vals)
    requires var done := header + LeafBody(keys, vals, t); page == done + Zeros(Room(pageSize, |done|))
    ensures |page| == pageSize <==> HEADER_SIZE + |keys| * (FieldSize(t) + 8) <= pageSize
    ensures HoldsLeaf(page, keys, vals, next, t) && page[0] == 2 && IdOf(page) == pid
  {
    hide LeafBody, PackHeader, FieldSize;
    BodySizeIs(|keys|, FieldSize(t) + 8);
    var body := LeafBody(keys, vals, t);
    var rest := body + Zeros(Room(pageSize, HEADER_SIZE + |body|));
    assert page == header + rest;
    HeaderFields(header, LEAF_NODE, pid, |keys|, next, rest);
    assert page[HEADER_SIZE..] == rest;
  }

  lemma NextEntry(keys: seq<Value>, vals: seq<Ptr>, t: FieldType, i: nat)
    requires |keys| == |vals| && i < |keys| && KeysFit(keys[i..], t) && PtrsOk(vals[i..])
    ensures Storable(keys[i]) && OfType(keys[i], t) && Int32(vals[i].page) && Int32(vals[i].slot)
    ensures KeysFit(keys[i + 1..], t) && PtrsOk(vals[i + 1..])
    ensures LeafBody(keys[i..], vals[i..], t) == EntryBlob(keys[i], vals[i], t) + LeafBody(keys[i + 1..], vals[i + 1..], t)
  {
    hide EntryBlob;
    var ks, vs := keys[i..], vals[i..];
    assert ks[0] == keys[i] && vs[0] == vals[i] && ks[1..] == keys[i + 1..] && vs[1..] == vals[i + 1..];
    assert KeysFit(ks[1..], t) && PtrsOk(vs[1..]);
  }

  /** `_read_leaf` gives back what the leaf holds. */
  method ReadLeaf(page: Bytes, t: FieldType, ghost keys0: seq<Value>, ghost vals0: seq<Ptr>, ghost next0: int)
    returns (keys: seq<Value>, vals: seq<Ptr>, next: int)
    requires |keys0| == |vals0| && KeysFit(keys0, t) && PtrsOk(vals0) && HoldsLeaf(page, keys0, vals0, next0, t)
    ensures keys == keys0 && vals == vals0 && next == next0
  {
    hide LeafBody, DecodeField, Dec32, FieldSize, KeysFit, PtrsOk, EntriesFrom;
    StartOfLeaf(page, keys0, vals0, next0, t);
    var n := CountOf(page);
    next := LinkOf(page);
    hide HoldsLeaf, CountOf, LinkOf;
    var off, size := HEADER_SIZE, FieldSize(t);
    keys, vals := [], [];
    for i := 0 to n
      invariant HEADER_SIZE <= off <= |page| && keys == keys0[..i] && vals == vals0[..i]
      invariant EntriesFrom(page, off, keys0, vals0, t, i)
    {
      EntryStep(page, off, keys0, vals0, t, i);
      keys := keys + [DecodeField(page[off..off + size], t)];
      off := off + size;
      vals := vals + [Ptr(Dec32(page[off..off + 4]), Dec32(page[off + 4..off + 8]))];
      off := off + 8;
    }
    assert keys0[..n] == keys0 && vals0[..n] == vals0;
  }

  /** The entries from number i on start at the offset. */
  ghost predicate EntriesFrom(page: Bytes, off: nat, keys: seq<Value>, vals: seq<Ptr>, t: FieldType, i: nat) {
    && |keys| == |vals| && i <= |keys| && off <= |page| && KeysFit(keys[i..], t) && PtrsOk(vals[i..])
    && LeafBody(keys[i..], vals[i..], t) <= page[off..]
  }

  lemma StartOfLeaf(page: Bytes, keys: seq<Value>, vals: seq<Ptr>, next: int, t: FieldType)
    requires |keys| == |vals| && KeysFit(keys, t) && PtrsOk(vals) && HoldsLeaf(page, keys, vals, next, t)
    ensures |page| >= HEADER_SIZE && CountOf(page) == |keys| && LinkOf(page) == next
    ensures EntriesFrom(page, HEADER_SIZE, keys, vals, t, 0)
  {
    hide LeafBody;
    assert keys[0..] == keys && vals[0..] == vals;
  }

  /** The entry at the offset, and the rest of the leaf behind it. */
  lemma EntryStep(page: Bytes, off: nat, keys: seq<Value>, vals: seq<Ptr>, t: FieldType, i: nat)
    requires i < |keys| && EntriesFrom(page, off, keys, vals, t, i)
    ensures |vals| == |keys| && var at := off + FieldSize(t);
            && at + 8 <= |page| && DecodeField(page[off..at], t) == keys[i]
            && Ptr(Dec32(page[at..at + 4]), Dec32(page[at + 4..at + 8])) == vals[i]
            && EntriesFrom(page, at + 8, keys, vals, t, i + 1)
  {
    NextEntry(keys, vals, t, i);
    EntryParts(keys[i], vals[i], t);
    FieldRoundTrip(keys[i], t);
    Int32RoundTrip(vals[i].page);
    Int32RoundTrip(vals[i].slot);
    hide LeafBody, EntryBlob, EncodeField, DecodeField, Enc32, Dec32, KeysFit, PtrsOk, FieldSize;
    var e, n := EntryBlob(keys[i], vals[i], t), FieldSize(t);
    Pieces(page, off, e, LeafBody(keys[i + 1..], vals[i + 1..], t));
    PartOf(page, off, e, 0, n);
    PartOf(page, off, e, n, n + 4);
    PartOf(page, off, e, n + 4, n + 8);
  }

  lemma PartOf(page: Bytes, off: nat, e: Bytes, x: nat, y: nat)
    requires off + |e| <= |page| && page[off..off + |e|] == e && x <= y <= |e|
    ensures page[off + x..off + y] == e[x..y]
  {
    forall i | 0 <= i < y - x ensures page[off + x..off + y][i] == e[x..y][i] {
      assert page[off..off + |e|][x + i] == e[x + i];
    }
  }

  lemma Pieces(page: Bytes, off: nat, first: Bytes, rest: Bytes)
    requires off <= |page| && first + rest <= page[off..]
    ensures off + |first| <= |page| && page[off..off + |first|] == first && rest <= page[off + |first|..]
  {
    NextField(page[off..], first, rest);
    assert page[off..][..|first|] == page[off..off + |first|] && page[off..][|first|..] == page[off + |first|..];
  }

  /** The pageLSN in the reserved bytes does not disturb a leaf. */
  lemma StampKeepsLeaf(p: Bytes, lsn: nat, keys: seq<Value>, vals: seq<Ptr>, next: int, t: FieldType)
    requires |keys| == |vals| && KeysFit(keys, t) && PtrsOk(vals) && HoldsLeaf(p, keys, vals, next, t)
    ensures HoldsLeaf(Stamp(p, lsn), keys, vals, next, t) && IdOf(Stamp(p, lsn)) == IdOf(p)
  {
    var p' := Stamp(p, lsn);
    hide Stamp;
    SameBytes(p, p', PAGE_ID, PAGE_ID + 4);
    SameBytes(p, p', COUNT, COUNT + 4);
    SameBytes(p, p', NEXT, NEXT + 4);
    SameBytes(p, p', HEADER_SIZE, |p|);
    assert p'[HEADER_SIZE..] == p'[HEADER_SIZE..|p|] && p[HEADER_SIZE..] == p[HEADER_SIZE..|p|];
  }

  // ---------------------------------------------------------------- inner nodes

  predicate PidsOk(kids: seq<int>) {
    forall i :: 0 <= i < |kids| ==> Int32(kids[i])
  }

  /** A key and the child to its right. */
  function PairBlob(k: Value, kid: int, t: FieldType): (b: Bytes)
    requires Storable(k) && OfType(k, t) && Int32(kid)
    ensures |b| == FieldSize(t) + 4
  {
    EncodeField(k) + Enc32(kid)
  }

  ghost function PairsBody(keys: seq<Value>, kids: seq<int>, t: FieldType): (b: Bytes)
    requires |keys| == |kids| && KeysFit(keys, t) && PidsOk(kids)
    ensures |b| == BodySize(|keys|, FieldSize(t) + 4)
  {
    if keys == [] then [] else PairBlob(keys[0], kids[0], t) + PairsBody(keys[1..], kids[1..], t)
  }

  /** A page that reads as this inner node: the leftmost child, then the pairs. */
  ghost predicate HoldsInner(p: Bytes, keys: seq<Value>, kids: seq<int>, t: FieldType)
    requires |kids| == |keys| + 1 && KeysFit(keys, t) && PidsOk(kids)
  {
    && |p| >= HEADER_SIZE + 4 && TypeOf(p) == INNER_NODE && CountOf(p) == |keys|
    && p[HEADER_SIZE..HEADER_SIZE + 4] == Enc32(kids[0])
    && PairsBody(keys, kids[1..], t) <= p[HEADER_SIZE + 4..]
  }

  ghost predicate PairsFrom(page: Bytes, off: nat, keys: seq<Value>, kids: seq<int>, t: FieldType, i: nat) {
    && |keys| == |kids| && i <= |keys| && off <= |page| && KeysFit(keys[i..], t) && PidsOk(kids[i..])
    && PairsBody(keys[i..], kids[i..], t) <= page[off..]
  }

  ghost predicate PairsWritten(start: Bytes, keys: seq<Value>, kids: seq<int>, t: FieldType, i: nat, done: Bytes) {
    && |keys| == |kids| && i <= |keys| && KeysFit(keys, t) && PidsOk(kids) && KeysFit(keys[i..], t) && PidsOk(kids[i..])
    && start + PairsBody(keys, kids, t) == done + PairsBody(keys[i..], kids[i..], t)
  }

  lemma NextPair(keys: seq<Value>, kids: seq<int>, t: FieldType, i: nat)
    requires |keys| == |kids| && i < |keys| && KeysFit(keys[i..], t) && PidsOk(kids[i..])
    ensures Storable(keys[i]) && OfType(keys[i], t) && Int32(kids[i])
    ensures KeysFit(keys[i + 1..], t) && PidsOk(kids[i + 1..])
    ensures PairsBody(keys[i..], kids[i..], t) == PairBlob(keys[i], kids[i], t) + PairsBody(keys[i + 1..], kids[i + 1..], t)
  {
    hide PairBlob;
    var ks, cs := keys[i..], kids[i..];
    assert ks[0] == keys[i] && cs[0] == kids[i] && ks[1..] == keys[i + 1..] && cs[1..] == kids[i + 1..];
    assert KeysFit(ks[1..], t) && PidsOk(cs[1..]);
  }

  lemma PairsWrittenNext(start: Bytes, keys: seq<Value>, kids: seq<int>, t: FieldType, i: nat, done: Bytes)
    requires PairsWritten(start, keys, kids, t, i, done) && i < |keys|
    ensures |kids| == |keys| && Storable(keys[i]) && OfType(keys[i], t) && Int32(kids[i])
    ensures var blob, kid := EncodeField(keys[i]), Enc32(kids[i]);
            && |blob| == FieldSize(t) && PairsWritten(start, keys, kids, t, i + 1, done + blob + kid)
  {
    hide PairsBody, EncodeField, Enc32, FieldSize;
    NextPair(keys, kids, t, i);
    FieldRoundTrip(keys[i], t);
    var blob, kid := EncodeField(keys[i]), Enc32(kids[i]);
    Assoc(done, blob, kid);
    Assoc(done, blob + kid, PairsBody(keys[i + 1..], kids[i + 1..], t));
  }

  /** `_write_internal` */
  method WriteInternal(pageSize: nat, pid: int, keys: seq<Value>, kids: seq<int>, t: FieldType) returns (page: Bytes)
    requires pageSize >= HEADER_SIZE && Int32(pid) && |keys| < 0x1_0000_0000
    requires |kids| == |keys| + 1 && KeysFit(keys, t) && PidsOk(kids)
    ensures |page| == pageSize <==> HEADER_SIZE + 4 + |keys| * (FieldSize(t) + 4) <= pageSize
    ensures HoldsInner(page, keys, kids, t) && page[0] == 1 && IdOf(page) == pid
  {
    hide PairsBody, PairBlob, EncodeField, Enc32, Put, Room, FieldSize, PackHeader, KeysFit, PidsOk, HoldsInner,
         PairsWritten, Zeros;
    FirstKid(keys, kids, t);
    var header := PackHeader(INNER_NODE, pid, |keys|, -1);
    page := Put(Zeros(pageSize), 0, HEADER_SIZE, header);
    HeaderPut(header, pageSize);
    PutNext(header, Enc32(kids[0]), pageSize);
    page := Put(page, HEADER_SIZE, HEADER_SIZE + 4, Enc32(kids[0]));
    var off := HEADER_SIZE + 4;
    var rest := kids[1..];
    ghost var start := header + Enc32(kids[0]);
    ghost var done := start;
    PairsWrittenNothing(start, keys, rest, t);
    for i := 0 to |keys|
      invariant off == |done| >= HEADER_SIZE && page == done + Zeros(Room(pageSize, |done|))
      invariant PairsWritten(start, keys, rest, t, i, done)
    {
      PairsWrittenNext(start, keys, rest, t, i, done);
      var blob, kid := EncodeField(keys[i]), Enc32(rest[i]);
      PutTwice(done, blob, kid, pageSize);
      page := Put(page, off, off + FieldSize(t), blob);
      off := off + FieldSize(t);
      page := Put(page, off, off + 4, kid);
      off := off + 4;
      done := done + blob + kid;
    }
    InnerPage(page, header, pid, keys, kids, t, pageSize, done);
  }

  lemma FirstKid(keys: seq<Value>, kids: seq<int>, t: FieldType)
    requires |kids| == |keys| + 1 && KeysFit(keys, t) && PidsOk(kids)
    ensures Int32(kids[0]) && PidsOk(kids[1..])
  {
  }

  lemma PairsWrittenNothing(start: Bytes, keys: seq<Value>, kids: seq<int>, t: FieldType)
    requires |keys| == |kids| && KeysFit(keys, t) && PidsOk(kids)
    ensures PairsWritten(start, keys, kids, t, 0, start)
  {
    assert keys[0..] == keys && kids[0..] == kids;
  }

  lemma InnerPage(page: Bytes, header: Bytes, pid: int, keys: seq<Value>, kids: seq<int>, t: FieldType, pageSize: nat,
                  done: Bytes)
    requires Int32(pid) && |keys| < 0x1_0000_0000 && header == PackHeader(INNER_NODE, pid, |keys|, -1) && pageSize >= HEADER_SIZE
    requires |kids| == |keys| + 1 && KeysFit(keys, t) && PidsOk(kids)
    requires PairsWritten(header + Enc32(kids[0]), keys, kids[1..], t, |keys|, done)
    requires page == done + Zeros(Room(pageSize, |done|))
    ensures |page| == pageSize <==> HEADER_SIZE + 4 + |keys| * (FieldSize(t) + 4) <= pageSize
    ensures HoldsInner(page, keys, kids, t) && page[0] == 1 && IdOf(page) == pid
  {
    var first, body := Enc32(kids[0]), PairsBody(keys, kids[1..], t);
    assert PairsBody(keys[|keys|..], kids[1..][|keys|..], t) == [];
    hide PairsBody, PackHeader, FieldSize, Enc32;
    BodySizeIs(|keys|, FieldSize(t) + 4);
    var tail := Zeros(Room(pageSize, |done|));
    assert done == header + first + body;
    Assoc(header, first, body);
    Assoc(header, first + body, tail);
    Assoc(first, body, tail);
    var rest := first + (body + tail);
    assert page == header + rest;
    HeaderFields(header, INNER_NODE, pid, |keys|, -1, rest);
    BehindHeader(header, first, body + tail);
  }

  lemma BehindHeader(header: Bytes, first: Bytes, rest: Bytes)
    requires |header| == HEADER_SIZE && |first| == 4
    ensures var page := header + (first + rest);
            page[HEADER_SIZE..HEADER_SIZE + 4] == first && page[HEADER_SIZE + 4..] == rest
  {
  }

  /** `_read_internal` gives back what the inner node holds. */
  method ReadInternal(page: Bytes, t: FieldType, ghost keys0: seq<Value>, ghost kids0: seq<int>)
    returns (keys: seq<Value>, kids: seq<int>)
    requires |kids0| == |keys0| + 1 && KeysFit(keys0, t) && PidsOk(kids0) && HoldsInner(page, keys0, kids0, t)
    ensures keys == keys0 && kids == kids0
  {
    hide PairsBody, DecodeField, Dec32, Enc32, FieldSize, KeysFit, PidsOk, PairsFrom;
    ghost var rest := kids0[1..];
    StartOfInner(page, keys0, kids0, t);
    var n := CountOf(page);
    hide HoldsInner, CountOf;
    var off, size := HEADER_SIZE + 4, FieldSize(t);
    keys, kids := [], [Dec32(page[HEADER_SIZE..HEADER_SIZE + 4])];
    for i := 0 to n
      invariant HEADER_SIZE <= off <= |page| && keys == keys0[..i] && kids == [kids0[0]] + rest[..i]
      invariant PairsFrom(page, off, keys0, rest, t, i)
    {
      PairStep(page, off, keys0, rest, t, i);
      keys := keys + [DecodeField(page[off..off + size], t)];
      off := off + size;
      kids := kids + [Dec32(page[off..off + 4])];
      off := off + 4;
    }
    assert keys0[..n] == keys0 && [kids0[0]] + rest[..n] == kids0;
  }

  lemma StartOfInner(page: Bytes, keys: seq<Value>, kids: seq<int>, t: FieldType)
    requires |kids| == |keys| + 1 && KeysFit(keys, t) && PidsOk(kids) && HoldsInner(page, keys, kids, t)
    ensures |page| >= HEADER_SIZE + 4 && CountOf(page) == |keys|
    ensures Dec32(page[HEADER_SIZE..HEADER_SIZE + 4]) == kids[0]
    ensures PairsFrom(page, HEADER_SIZE + 4, keys, kids[1..], t, 0)
  {
    hide PairsBody;
    Int32RoundTrip(kids[0]);
    var rest := kids[1..];
    assert keys[0..] == keys && rest[0..] == rest;
  }

  lemma PairStep(page: Bytes, off: nat, keys: seq<Value>, kids: seq<int>, t: FieldType, i: nat)
    requires i < |keys| && PairsFrom(page, off, keys, kids, t, i)
    ensures |kids| == |keys| && var at := off + FieldSize(t);
            && at + 4 <= |page| && DecodeField(page[off..at], t) == keys[i] && Dec32(page[at..at + 4]) == kids[i]
            && PairsFrom(page, at + 4, keys, kids, t, i + 1)
  {
    NextPair(keys, kids, t, i);
    FieldRoundTrip(keys[i], t);
    Int32RoundTrip(kids[i]);
    var k, c := EncodeField(keys[i]), Enc32(kids[i]);
    var rest := PairsBody(keys[i + 1..], kids[i + 1..], t);
    hide PairsBody, EncodeField, DecodeField, Enc32, Dec32, KeysFit, PidsOk, FieldSize;
    Assoc(k, c, rest);
    Pieces(page, off, k, c + rest);
    Pieces(page, off + |k|, c, rest);
  }

  /** Nor an inner node. */
  lemma StampKeepsInner(p: Bytes, lsn: nat, keys: seq<Value>, kids: seq<int>, t: FieldType)
    requires |kids| == |keys| + 1 && KeysFit(keys, t) && PidsOk(kids) && HoldsInner(p, keys, kids, t)
    ensures HoldsInner(Stamp(p, lsn), keys, kids, t) && IdOf(Stamp(p, lsn)) == IdOf(p)
  {
    var p' := Stamp(p, lsn);
    hide Stamp;
    SameBytes(p, p', PAGE_ID, PAGE_ID + 4);
    SameBytes(p, p', COUNT, COUNT + 4);
    SameBytes(p, p', HEADER_SIZE, HEADER_SIZE + 4);
    SameBytes(p, p', HEADER_SIZE + 4, |p|);
    assert p'[HEADER_SIZE + 4..] == p'[HEADER_SIZE + 4..|p|] && p[HEADER_SIZE + 4..] == p[HEADER_SIZE + 4..|p|];
  }

  // ---------------------------------------------------------------- when every node fits

  /** Every leaf and inner node with at most MaxKeys keys fits its page exactly when the page has room
      for the four entries MaxKeys grants even to small pages. */
  lemma NodesFit(pageSize: nat, t: FieldType)
    ensures (forall n: nat :: n <= B.MaxKeys(pageSize, FieldSize(t)) ==> NodeFits(pageSize, n, t))
       <==> pageSize - HEADER_SIZE >= 4 * (FieldSize(t) + 8)
  {
    var m, body := B.MaxKeys(pageSize, FieldSize(t)), pageSize - HEADER_SIZE;
    if body >= 4 * (FieldSize(t) + 8) {
      forall n: nat | n <= m ensures NodeFits(pageSize, n, t) {
      }
    } else {
      assert m >= 4 && !NodeFits(pageSize, 4, t);
    }
  }

  predicate NodeFits(pageSize: nat, n: nat, t: FieldType) {
    && HEADER_SIZE + n * (FieldSize(t) + 8) <= pageSize
    && HEADER_SIZE + 4 + n * (FieldSize(t) + 4) <= pageSize
  }
}
