/** The text of log records: page keys, hex images, and the two tables an end_chkpt record packs
    into its spare fields. */
module LogText {
  import opened Pages
  import opened Log
  import opened Engine
  import opened Analysis
  import opened Redo
  import opened Recovery
  import opened Values

  // ---------------------------------------------------------------- splitting and joining

  /** s.split(c): always at least one piece. */
  function Split(s: string, c: char): (parts: seq<string>)
    ensures |parts| >= 1 && forall i :: 0 <= i < |parts| ==> c !in parts[i]
  {
    if s == [] then [""]
    else
      var rest := Split(s[1..], c);
      if s[0] == c then [""] + rest else [[s[0]] + rest[0]] + rest[1..]
  }

  /** c.join(parts) */
  function Join(parts: seq<string>, c: char): string {
    if parts == [] then "" else if |parts| == 1 then parts[0] else parts[0] + [c] + Join(parts[1..], c)
  }

  lemma {:induction false} SplitPlain(s: string, c: char)
    requires c !in s
    ensures Split(s, c) == [s]
  {
    if s != [] {
      SplitPlain(s[1..], c);
      assert s[0] in s;
      assert [s[0]] + s[1..] == s;
    }
  }

  lemma {:induction false} SplitFirst(a: string, b: string, c: char)
    requires c !in a
    ensures Split(a + [c] + b, c) == [a] + Split(b, c)
  {
    var s := a + [c] + b;
    if a == [] {
      assert s[1..] == b;
    } else {
      SplitFirst(a[1..], b, c);
      assert s[1..] == a[1..] + [c] + b && s[0] == a[0] && a[0] in a;
      assert [a[0]] + a[1..] == a;
    }
  }

  /** Pieces without the separator survive joining and splitting. */
  lemma {:induction false} SplitJoin(parts: seq<string>, c: char)
    requires parts != [] && forall i :: 0 <= i < |parts| ==> c !in parts[i]
    ensures Split(Join(parts, c), c) == parts
  {
    if |parts| == 1 {
      SplitPlain(parts[0], c);
    } else {
      SplitFirst(parts[0], Join(parts[1..], c), c);
      SplitJoin(parts[1..], c);
    }
  }

  /** s.rfind(c): position of the last c, or |s|. */
  function LastIndex(s: string, c: char): (i: nat)
    ensures i <= |s| && (i < |s| ==> s[i] == c) && forall j :: i < j < |s| ==> s[j] != c
    ensures i == |s| ==> c !in s
  {
    if s == [] then 0
    else
      var n := |s| - 1;
      if s[n] == c then n
      else
        var i := LastIndex(s[..n], c);
        assert forall j :: 0 <= j < n ==> s[..n][j] == s[j];
        if i == n then n + 1 else i
  }

  lemma LastIndexOf(a: string, b: string, c: char)
    requires c !in b
    ensures LastIndex(a + [c] + b, c) == |a|
  {
    hide LastIndex;
    var s := a + [c] + b;
    forall j: nat | |a| < j < |s| ensures s[j] != c {
      InTail(a, b, c, j);
    }
    LastIndexIs(s, c, |a|);
  }

  lemma InTail(a: string, b: string, c: char, j: nat)
    requires |a| < j < |a + [c] + b|
    ensures (a + [c] + b)[j] in b
  {
    assert (a + [c] + b)[j] == b[j - |a| - 1];
  }

  lemma LastIndexIs(s: string, c: char, i: nat)
    requires i < |s| && s[i] == c && forall j :: i < j < |s| ==> s[j] != c
    ensures LastIndex(s, c) == i
  {
    hide LastIndex;
    assert s[i] in s;
  }

  lemma DecimalChars(n: int)
    ensures forall i :: 0 <= i < |Decimal(n)| ==> Decimal(n)[i] == '-' || '0' <= Decimal(n)[i] <= '9'
    ensures ':' !in Decimal(n) && '|' !in Decimal(n)
  {
  }

  // ---------------------------------------------------------------- page keys

  /** The page_id field of an update record. */
  function KeyField(k: PageKey): string {
    k.file + ":" + Decimal(k.pid)
  }

  /** `_parse_page_key` */
  function ParsePageKey(s: string): Option<(string, int)> {
    var i := LastIndex(s, ':');
    if s == "" || i == |s| then None
    else match ParseInt(s[i + 1..]) case None => None case Some(n) => Some((s[..i], n))
  }

  /** Page keys survive, colons in the file id included. */
  lemma PageKeyRoundTrip(k: PageKey)
    ensures ParsePageKey(KeyField(k)) == Some((k.file, k.pid as int))
  {
    DecimalChars(k.pid);
    LastIndexOf(k.file, Decimal(k.pid), ':');
    DecimalRoundTrip(k.pid);
    var s := KeyField(k);
    assert s[|k.file| + 1..] == Decimal(k.pid) && s[..|k.file|] == k.file;
  }

  // ---------------------------------------------------------------- hex images

  function HexDigit(d: nat): char
    requires d < 16
  {
    "0123456789abcdef"[d]
  }

  function HexValue(c: char): Option<nat> {
    if '0' <= c <= '9' then Some(c as int - '0' as int)
    else if 'a' <= c <= 'f' then Some(c as int - 'a' as int + 10)
    else if 'A' <= c <= 'F' then Some(c as int - 'A' as int + 10)
    else None
  }

  function EncodeHex(b: Bytes): (s: string)
    ensures |s| == 2 * |b|
  {
    if b == [] then "" else [HexDigit(b[0] / 16), HexDigit(b[0] % 16)] + EncodeHex(b[1..])
  }

  function DecodeHex(s: string): Option<Bytes> {
    if s == "" then Some([])
    else if |s| == 1 then None
    else match (HexValue(s[0]), HexValue(s[1]), DecodeHex(s[2..]))
      case (Some(x), Some(y), Some(rest)) => if x < 16 && y < 16 then Some([16 * x + y] + rest) else None
      case _ => None
  }

  lemma HexDigitValue(d: nat)
    requires d < 16
    ensures HexValue(HexDigit(d)) == Some(d) && !('A' <= HexDigit(d) <= 'F')
  {
  }

  lemma {:induction false} HexRoundTrip(b: Bytes)
    ensures DecodeHex(EncodeHex(b)) == Some(b)
  {
    hide HexDigit, HexValue;
    if b != [] {
      HexRoundTrip(b[1..]);
      HexDigitValue(b[0] / 16);
      HexDigitValue(b[0] % 16);
      HexHead(b);
      var s := EncodeHex(b);
      assert s[0] == HexDigit(b[0] / 16) && s[1] == HexDigit(b[0] % 16) && s[2..] == EncodeHex(b[1..]);
    }
  }

  /** Two lower-case digits a byte, the high one first. */
  lemma {:induction false} HexAt(b: Bytes, i: nat)
    requires i < |b|
    ensures var s := EncodeHex(b);
            && |s| == 2 * |b| && HexValue(s[2 * i]) == Some(b[i] / 16) && HexValue(s[2 * i + 1]) == Some(b[i] % 16)
            && !('A' <= s[2 * i] <= 'F') && !('A' <= s[2 * i + 1] <= 'F')
  {
    hide HexValue;
    if i > 0 {
      HexAt(b[1..], i - 1);
    } else {
      HexDigitValue(b[0] / 16);
      HexDigitValue(b[0] % 16);
    }
  }

  lemma HexHead(b: Bytes)
    requires b != []
    ensures [16 * (b[0] / 16) + b[0] % 16] + b[1..] == b
  {
  }

  // ---------------------------------------------------------------- the dirty page table

  datatype DptItem = DptItem(key: PageKey, recLsn: nat)

  function DptPart(e: DptItem): string {
    KeyField(e.key) + ":" + Decimal(e.recLsn)
  }

  function DptParts(items: seq<DptItem>): (parts: seq<string>)
    ensures |parts| == |items| && forall i :: 0 <= i < |items| ==> parts[i] == DptPart(items[i])
  {
    seq(|items|, i requires 0 <= i < |items| => DptPart(items[i]))
  }

  /** `_serialise_dpt`, in the table's order. */
  function SerialiseDpt(items: seq<DptItem>): string {
    Join(DptParts(items), '|')
  }

  datatype Parsed<T> = Table(t: T) | Malformed

  /** One piece: the two last colons delimit page id and recLSN; a piece without them is skipped. */
  function ParseDptPart(m: map<(string, int), int>, part: string): Parsed<map<(string, int), int>> {
    var j := LastIndex(part, ':');
    if j == |part| then Table(m)
    else
      var i := LastIndex(part[..j], ':');
      if i == j then Table(m)
      else
        match (ParseInt(part[..j][i + 1..]), ParseInt(part[j + 1..]))
        case (Some(pid), Some(lsn)) => Table(m[(part[..j][..i], pid) := lsn])
        case _ => Malformed
  }

  function ParseDptParts(m: map<(string, int), int>, parts: seq<string>): Parsed<map<(string, int), int>>
    decreases |parts|
  {
    if parts == [] then Table(m)
    else match ParseDptPart(m, parts[0]) case Malformed => Malformed case Table(m1) => ParseDptParts(m1, parts[1..])
  }

  /** `_deserialise_dpt` */
  function DeserialiseDpt(s: string): Parsed<map<(string, int), int>> {
    if s == "" then Table(map[]) else ParseDptParts(map[], Split(s, '|'))
  }

  /** The table the items make. */
  function DptOf(m: map<(string, int), int>, items: seq<DptItem>): map<(string, int), int>
    decreases |items|
  {
    if items == [] then m
    else DptOf(m[(items[0].key.file, items[0].key.pid as int) := items[0].recLsn], items[1..])
  }

  predicate PlainIds(items: seq<DptItem>) {
    forall i :: 0 <= i < |items| ==> '|' !in items[i].key.file
  }

  lemma DptPartParses(m: map<(string, int), int>, e: DptItem)
    ensures ParseDptPart(m, DptPart(e)) == Table(m[(e.key.file, e.key.pid as int) := e.recLsn as int])
    ensures '|' !in e.key.file ==> '|' !in DptPart(e)
  {
    hide Decimal, LastIndex, ParseInt;
    var f, pid, lsn := e.key.file, Decimal(e.key.pid), Decimal(e.recLsn);
    DecimalChars(e.recLsn);
    DecimalChars(e.key.pid);
    LastIndexOf(f + ":" + pid, lsn, ':');
    LastIndexOf(f, pid, ':');
    DecimalRoundTrip(e.recLsn);
    DecimalRoundTrip(e.key.pid);
    Cut(f + ":" + pid, lsn, ':');
    Cut(f, pid, ':');
    if '|' !in f {
      NotInParts(f, pid, lsn, ':', '|');
    }
  }

  /** The pieces on both sides of a separator. */
  lemma Cut(a: string, b: string, c: char)
    ensures var s := a + [c] + b; s[..|a|] == a && s[|a| + 1..] == b && |a| < |s|
  {
  }

  lemma {:induction false} DptPartsParse(m: map<(string, int), int>, items: seq<DptItem>)
    ensures ParseDptParts(m, DptParts(items)) == Table(DptOf(m, items))
    decreases |items|
  {
    if items != [] {
      var e := items[0];
      DptPartParses(m, e);
      DptPartsParse(m[(e.key.file, e.key.pid as int) := e.recLsn], items[1..]);
      assert DptParts(items)[1..] == DptParts(items[1..]);
    }
  }

  /** Keys read back never contain the separator. */
  lemma {:induction false} ParsedIdsPlain(m: map<(string, int), int>, parts: seq<string>)
    requires forall i :: 0 <= i < |parts| ==> '|' !in parts[i]
    requires forall k :: k in m ==> '|' !in k.0
    ensures var r := ParseDptParts(m, parts); r.Table? ==> forall k :: k in r.t ==> '|' !in k.0
    decreases |parts|
  {
    if parts != [] {
      var r := ParseDptPart(m, parts[0]);
      assert '|' !in parts[0];
      if r.Table? {
        ParsedIdsPlain(r.t, parts[1..]);
      }
    }
  }

  lemma {:induction false} DptKeys(m: map<(string, int), int>, items: seq<DptItem>, i: nat)
    requires i < |items|
    ensures (items[i].key.file, items[i].key.pid as int) in DptOf(m, items)
    ensures forall k :: k in m ==> k in DptOf(m, items)
    decreases |items|
  {
    var m1 := m[(items[0].key.file, items[0].key.pid as int) := items[0].recLsn];
    if i > 0 {
      DptKeys(m1, items[1..], i - 1);
    } else if |items| > 1 {
      DptKeys(m1, items[1..], 0);
    } else {
      assert items[1..] == [];
    }
  }

  lemma JoinedNotEmpty(items: seq<DptItem>)
    requires items != []
    ensures SerialiseDpt(items) != ""
  {
    var parts := DptParts(items);
    assert parts[0] == DptPart(items[0]) && |parts[0]| > 0;
  }

  /** A dirty page table survives its trip through a checkpoint record exactly when no file id in it
      contains the character that separates the entries. */
  lemma DptRoundTrip(items: seq<DptItem>)
    ensures DeserialiseDpt(SerialiseDpt(items)) == Table(DptOf(map[], items)) <==> PlainIds(items)
  {
    var s := SerialiseDpt(items);
    if items == [] {
    } else {
      JoinedNotEmpty(items);
      if PlainIds(items) {
        forall i | 0 <= i < |items| ensures '|' !in DptParts(items)[i] {
          DptPartParses(map[], items[i]);
        }
        SplitJoin(DptParts(items), '|');
        DptPartsParse(map[], items);
      } else {
        var i :| 0 <= i < |items| && '|' in items[i].key.file;
        DptKeys(map[], items, i);
        ParsedIdsPlain(map[], Split(s, '|'));
      }
    }
  }

  /** A valid file id with the separator in it comes back as the page of another file: what is left
      of the separator is dropped. */
  lemma DptMisread(a: string, b: string, pid: nat, recLsn: nat)
    requires '|' !in a && '|' !in b && ':' !in a && '/' !in a && '/' !in b
    ensures ValidFileId(a + "|" + b)
    ensures DeserialiseDpt(SerialiseDpt([DptItem(PageKey(a + "|" + b, pid), recLsn)]))
         == Table(map[(b, pid as int) := recLsn as int])
  {
    hide Decimal, ParseDptPart, ValidFileId;
    var e, e1 := DptItem(PageKey(a + "|" + b, pid), recLsn), DptItem(PageKey(b, pid), recLsn);
    JoinedId(a, b);
    JoinedNotEmpty([e]);
    assert DptParts([e]) == [DptPart(e)];
    assert DptPart(e) == a + "|" + DptPart(e1);
    DptPartParses(map[], e1);
    hide DptPart;
    SplitFirst(a, DptPart(e1), '|');
    SplitPlain(DptPart(e1), '|');
    var rest := [DptPart(e1)];
    assert [a] + rest == [a, DptPart(e1)];
    PieceSkipped(a);
    TwoPieces(a, DptPart(e1));
  }

  lemma JoinedId(a: string, b: string)
    requires '/' !in a && '/' !in b
    ensures ValidFileId(a + "|" + b)
  {
    assert (a + "|" + b)[|a|] == '|';
  }

  lemma PieceSkipped(a: string)
    requires ':' !in a
    ensures ParseDptPart(map[], a) == Table(map[])
  {
    assert LastIndex(a, ':') == |a|;
  }

  lemma TwoPieces(a: string, b: string)
    requires ParseDptPart(map[], a) == Table(map[]) && ParseDptPart(map[], b).Table?
    ensures ParseDptParts(map[], [a, b]) == ParseDptPart(map[], b)
  {
    hide ParseDptPart;
    var m := ParseDptPart(map[], b).t;
    var rest := [b];
    assert [a, b][1..] == rest && rest[1..] == [];
    assert ParseDptParts(map[], [a, b]) == ParseDptParts(map[], rest);
    assert ParseDptParts(m, rest[1..]) == Table(m);
  }

  // ---------------------------------------------------------------- the transaction table

  datatype TxItem = TxItem(xid: nat, entry: TxEntry)

  function StatusText(s: Status): string {
    match s case Active => "active" case Committed => "committed"
  }

  function TxPart(e: TxItem): string {
    Decimal(e.xid) + ":" + StatusText(e.entry.status) + ":" + Decimal(e.entry.lastLsn)
  }

  function TxParts(items: seq<TxItem>): (parts: seq<string>)
    ensures |parts| == |items| && forall i :: 0 <= i < |items| ==> parts[i] == TxPart(items[i])
  {
    seq(|items|, i requires 0 <= i < |items| => TxPart(items[i]))
  }

  /** `_serialise_tx_table` */
  function SerialiseTx(items: seq<TxItem>): string {
    Join(TxParts(items), '|')
  }

  datatype TextEntry = TextEntry(status: string, lastLsn: int)

  function ParseTxParts(m: map<int, TextEntry>, parts: seq<string>): Parsed<map<int, TextEntry>>
    decreases |parts|
  {
    if parts == [] then Table(m)
    else
      var segs := Split(parts[0], ':');
      if |segs| != 3 then Malformed
      else
        match (ParseInt(segs[0]), ParseInt(segs[2]))
        case (Some(xid), Some(last)) => ParseTxParts(m[xid := TextEntry(segs[1], last)], parts[1..])
        case _ => Malformed
  }

  /** `_deserialise_tx_table` */
  function DeserialiseTx(s: string): Parsed<map<int, TextEntry>> {
    if s == "" then Table(map[]) else ParseTxParts(map[], Split(s, '|'))
  }

  function TxTableOf(m: map<int, TextEntry>, items: seq<TxItem>): map<int, TextEntry>
    decreases |items|
  {
    if items == [] then m
    else
      var e := items[0];
      TxTableOf(m[e.xid as int := TextEntry(StatusText(e.entry.status), e.entry.lastLsn)], items[1..])
  }

  lemma TxPartSplits(e: TxItem)
    ensures Split(TxPart(e), ':') == [Decimal(e.xid), StatusText(e.entry.status), Decimal(e.entry.lastLsn)]
    ensures '|' !in TxPart(e) && TxPart(e) != ""
  {
    hide Decimal, Split, StatusText;
    DecimalChars(e.xid);
    DecimalChars(e.entry.lastLsn);
    StatusPlain(e.entry.status);
    var x, st, l := Decimal(e.xid), StatusText(e.entry.status), Decimal(e.entry.lastLsn);
    ThreeParts(x, st, l, ':');
    NotInParts(x, st, l, ':', '|');
  }

  lemma StatusPlain(s: Status)
    ensures ':' !in StatusText(s) && '|' !in StatusText(s)
  {
  }

  lemma ThreeParts(x: string, y: string, z: string, c: char)
    requires c !in x && c !in y && c !in z
    ensures Split(x + [c] + y + [c] + z, c) == [x, y, z]
  {
    hide Split;
    var rest := y + [c] + z;
    assert x + [c] + y + [c] + z == x + [c] + rest;
    SplitFirst(x, rest, c);
    SplitFirst(y, z, c);
    SplitPlain(z, c);
  }

  lemma NotInParts(x: string, y: string, z: string, c: char, d: char)
    requires d !in x && d !in y && d !in z && d != c
    ensures d !in x + [c] + y + [c] + z && x + [c] + y + [c] + z != ""
  {
  }

  lemma {:induction false} TxPartsParse(m: map<int, TextEntry>, items: seq<TxItem>)
    ensures ParseTxParts(m, TxParts(items)) == Table(TxTableOf(m, items))
    decreases |items|
  {
    if items != [] {
      var e := items[0];
      TxPartSplits(e);
      DecimalRoundTrip(e.xid);
      DecimalRoundTrip(e.entry.lastLsn);
      TxPartsParse(m[e.xid as int := TextEntry(StatusText(e.entry.status), e.entry.lastLsn)], items[1..]);
      assert TxParts(items)[1..] == TxParts(items[1..]);
    }
  }

  /** A transaction table always survives its trip through a checkpoint record. */
  lemma TxRoundTrip(items: seq<TxItem>)
    ensures DeserialiseTx(SerialiseTx(items)) == Table(TxTableOf(map[], items))
  {
    if items != [] {
      forall i | 0 <= i < |items| ensures '|' !in TxParts(items)[i] && TxParts(items)[i] != "" {
        TxPartSplits(items[i]);
      }
      SplitJoin(TxParts(items), '|');
      TxPartsParse(map[], items);
      assert TxParts(items)[0] != "";
    }
  }

  // ---------------------------------------------------------------- checkpoints of a well-formed log

  /** The items list the table, in any order. */
  ghost predicate DptItems(items: seq<DptItem>, dpt: map<PageKey, nat>) {
    && (forall i :: 0 <= i < |items| ==> items[i].key in dpt && items[i].recLsn == dpt[items[i].key])
    && (forall k :: k in dpt ==> DptItem(k, dpt[k]) in items)
  }

  ghost predicate TxItems(items: seq<TxItem>, tx: map<int, TxEntry>) {
    && (forall i :: 0 <= i < |items| ==> items[i].xid in tx && items[i].entry == tx[items[i].xid])
    && (forall x :: x in tx ==> exists i :: 0 <= i < |items| && items[i].xid == x)
  }

  function Pair(k: PageKey): (string, int) {
    (k.file, k.pid)
  }

  /** The table a reader gets for `dpt`: it has its entries and no others. */
  ghost predicate SameDpt(t: map<(string, int), int>, dpt: map<PageKey, nat>) {
    && (forall k :: k in dpt ==> Pair(k) in t && t[Pair(k)] == dpt[k])
    && (forall q :: q in t ==> q.1 >= 0 && PageKey(q.0, q.1) in dpt)
  }

  ghost predicate SameTx(t: map<int, TextEntry>, tx: map<int, TxEntry>) {
    && t.Keys == tx.Keys
    && forall x :: x in tx ==> t[x] == TextEntry(StatusText(tx[x].status), tx[x].lastLsn)
  }

  lemma {:induction false} DptOfItems(m: map<(string, int), int>, items: seq<DptItem>, dpt: map<PageKey, nat>)
    requires forall i :: 0 <= i < |items| ==> items[i].key in dpt && items[i].recLsn == dpt[items[i].key]
    requires forall k :: k in dpt && Pair(k) in m ==> m[Pair(k)] == dpt[k]
    ensures var t := DptOf(m, items);
            && (forall k :: k in dpt && (Pair(k) in m || DptItem(k, dpt[k]) in items) ==> Pair(k) in t && t[Pair(k)] == dpt[k])
            && (forall q :: q in t ==> q in m || (q.1 >= 0 && PageKey(q.0, q.1) in dpt))
    decreases |items|
  {
    if items != [] {
      var e := items[0];
      var m1 := m[(e.key.file, e.key.pid as int) := e.recLsn];
      assert Pair(e.key) == (e.key.file, e.key.pid as int);
      assert forall k :: Pair(k) == Pair(e.key) ==> k == e.key;
      DptOfItems(m1, items[1..], dpt);
      forall k | k in dpt && DptItem(k, dpt[k]) in items ensures Pair(k) in m1 || DptItem(k, dpt[k]) in items[1..] {
        var i :| 0 <= i < |items| && items[i] == DptItem(k, dpt[k]);
        assert i > 0 ==> items[1..][i - 1] == items[i];
      }
    }
  }

  lemma {:induction false} TxTableOfItems(m: map<int, TextEntry>, items: seq<TxItem>, tx: map<int, TxEntry>)
    requires forall i :: 0 <= i < |items| ==> items[i].xid in tx && items[i].entry == tx[items[i].xid]
    requires forall x :: x in m ==> x in tx && m[x] == TextEntry(StatusText(tx[x].status), tx[x].lastLsn)
    ensures var t := TxTableOf(m, items);
            && (forall x :: x in t ==> x in tx && t[x] == TextEntry(StatusText(tx[x].status), tx[x].lastLsn))
            && (forall x :: x in m ==> x in t)
            && (forall i :: 0 <= i < |items| ==> items[i].xid in t)
    decreases |items|
  {
    if items != [] {
      var e := items[0];
      var m1 := m[e.xid as int := TextEntry(StatusText(e.entry.status), e.entry.lastLsn)];
      TxTableOfItems(m1, items[1..], tx);
      forall i | 0 <= i < |items| ensures items[i].xid in TxTableOf(m, items) {
        if i > 0 {
          assert items[1..][i - 1] == items[i];
        }
      }
    }
  }

  /** Both tables of every checkpoint record in a well-formed log come back from their text as they were. */
  lemma CheckpointReadsBack(log: seq<Rec>, i: nat, txs: seq<TxItem>, items: seq<DptItem>, ps: nat)
    requires ps >= HEADER_SIZE && LogInv(log, ps) && i < |log| && log[i].body.EndCkpt?
    requires TxItems(txs, log[i].body.tx) && DptItems(items, log[i].body.dpt)
    ensures DeserialiseTx(SerialiseTx(txs)).Table? && SameTx(DeserialiseTx(SerialiseTx(txs)).t, log[i].body.tx)
    ensures DeserialiseDpt(SerialiseDpt(items)).Table? && SameDpt(DeserialiseDpt(SerialiseDpt(items)).t, log[i].body.dpt)
  {
    hide SerialiseTx, SerialiseDpt, DeserialiseTx, DeserialiseDpt, LogInv, TxOk, TxTableOf, DptOf, DptItems, TxItems, PlainIds;
    var tx, dpt := log[i].body.tx, log[i].body.dpt;
    RecAt(log, i, ps);
    DptRoundTrip(items);
    DptItemsRead(items, dpt, log[i].lsn);
    TxRoundTrip(txs);
    TxItemsRead(txs, tx);
  }

  lemma DptItemsRead(items: seq<DptItem>, dpt: map<PageKey, nat>, lsn: int)
    requires DptItems(items, dpt) && DptBelow(dpt, lsn)
    ensures PlainIds(items) && SameDpt(DptOf(map[], items), dpt)
  {
    hide DptOf;
    DptOfItems(map[], items, dpt);
  }

  lemma TxItemsRead(txs: seq<TxItem>, tx: map<int, TxEntry>)
    requires TxItems(txs, tx)
    ensures SameTx(TxTableOf(map[], txs), tx)
  {
    hide TxTableOf;
    TxTableOfItems(map[], txs, tx);
    var t := TxTableOf(map[], txs);
    forall x | x in tx ensures x in t {
      var j :| 0 <= j < |txs| && txs[j].xid == x;
      assert txs[j].xid in t;
    }
    assert forall x :: x in t ==> x in tx;
    assert t.Keys == tx.Keys;
  }

  // ---------------------------------------------------------------- what a misread entry costs

  /** A committed update of a file whose id has the separator, with a checkpoint between the two: the
      dirty page table in the log is the one a reader gets. */
  function MisreadWal(): seq<Rec> {
    [Rec(1, NO_LSN, 0, Update(PageKey("a|b", 0), 22, [0, 0], [7, 1])),
     Rec(2, NO_LSN, SYS_XID, BeginCkpt),
     Rec(3, NO_LSN, SYS_XID, EndCkpt(map[0 := TxEntry(Active, 1)], map[PageKey("b", 0) := 1])),
     Rec(4, 1, 0, Commit)]
  }

  lemma MisreadAnalysis()
    ensures Analyse(MisreadWal(), 2) == Tables(map[0 := TxEntry(Committed, 4)], map[PageKey("b", 0) := 1])
  {
    var wal := MisreadWal();
    assert FindBegin(wal, 2, 1) == 1 && FindBegin(wal, 2, 0) == 1 && FindEnd(wal, 2) == 2;
    var t := Tables(map[0 := TxEntry(Active, 1)], map[PageKey("b", 0) := 1]);
    assert wal[..4] == wal;
    forall m: nat | m < 4 ensures Scan(t, wal[..m], 3) == t {
      ScanNothing(t, wal[..m], 3);
    }
    assert Front(wal) == wal[..3];
  }

  lemma MisreadLog(ps: nat)
    requires ps >= HEADER_SIZE
    ensures var k, wal := PageKey("a|b", 0), MisreadWal();
            Losers(wal) == {} && Upd(wal, k) == [wal[0]] && Replay(Upd(wal, k), Zeros(ps)) != Zeros(ps)
  {
    var k, wal := PageKey("a|b", 0), MisreadWal();
    var w1, w2, w3 := Front(wal), Front(Front(wal)), Front(Front(Front(wal)));
    assert w3 == [wal[0]] && Front(w3) == [] && Last(w3) == wal[0];
    assert Upd(wal, k) == Upd(w1, k) == Upd(w2, k) == Upd(w3, k) == [] + [wal[0]];
    assert Updaters(wal) == Updaters(w1) == Updaters(w2) == Updaters(w3) == {0};
    assert CommittedIn(wal) == {0};
    assert Replay([], Zeros(ps)) == Zeros(ps);
    assert Replay([wal[0]], Zeros(ps))[22] == 7;
  }

  /** The entry for the file "a|b" comes back as one for "b"; redo skips the update, and although its
      transaction committed, recovery leaves the page without it. */
  lemma MisreadLosesUpdate(cfg: Config, xs: seq<int>)
    requires cfg.pageSize >= HEADER_SIZE
    ensures var k := PageKey("a|b", 0); var d := Durable(MisreadWal(), map[], 2);
            && DeserialiseDpt(SerialiseDpt([DptItem(k, 1)])) == Table(map[("b", 0) := 1])
            && Losers(d.wal) == {} && Upd(d.wal, k) == [d.wal[0]]
            && DiskPage(Recover(cfg, [d], xs).files, cfg.pageSize, k) == Zeros(cfg.pageSize)
            && Replay(Upd(d.wal, k), Zeros(cfg.pageSize)) != Zeros(cfg.pageSize)
  {
    hide Analyse, SerialiseDpt, DeserialiseDpt, Replay, Upd, Losers;
    var wal := MisreadWal();
    var d := Durable(wal, map[], 2);
    MisreadLog(cfg.pageSize);
    assert "a" + "|" + "b" == "a|b";
    DptMisread("a", "b", 0, 1);
    MisreadAnalysis();
    var c := Analysed(cfg, [d]);
    RedoNothing(c, wal);
    assert UndoLosers(c.tx) == {};
    UndoNobody(c, wal);
    CloseAllPages(c, xs);
    assert FlushLog(CloseAll(c, xs)).files == CloseAll(c, xs).files;
  }

  /** The text of a table of each kind. */
  lemma DptText()
    ensures SerialiseDpt([DptItem(PageKey("t", 1), 5), DptItem(PageKey("u", 0), 7)]) == "t:1:5|u:0:7"
  {
    hide Join;
    var t, u := DptItem(PageKey("t", 1), 5), DptItem(PageKey("u", 0), 7);
    assert DptPart(t) == "t:1:5" && DptPart(u) == "u:0:7";
    TwoParts(DptParts([t, u]), '|');
  }

  lemma TxText()
    ensures SerialiseTx([TxItem(3, TxEntry(Active, 9)), TxItem(4, TxEntry(Committed, 8))]) == "3:active:9|4:committed:8"
  {
    hide Join;
    var x, y := TxItem(3, TxEntry(Active, 9)), TxItem(4, TxEntry(Committed, 8));
    assert TxPart(x) == "3:active:9" by {
      assert Decimal(3) == "3" && Decimal(9) == "9";
    }
    assert TxPart(y) == "4:committed:8" by {
      assert Decimal(4) == "4" && Decimal(8) == "8";
    }
    hide TxPart;
    TwoParts(TxParts([x, y]), '|');
  }

  lemma TwoParts(parts: seq<string>, c: char)
    requires |parts| == 2
    ensures Join(parts, c) == parts[0] + [c] + parts[1]
  {
  }

  // ---------------------------------------------------------------- file ids as paths

  /** Where a path leads from directory `dir`: empty pieces and "." stay, ".." goes up. */
  function Resolved(dir: seq<string>, parts: seq<string>): seq<string>
    decreases |parts|
  {
    if parts == [] then dir
    else
      var p := parts[0];
      Resolved(if p == "" || p == "." then dir else if p == ".." then (if dir == [] then [] else Front(dir)) else dir + [p], parts[1..])
  }

  predicate NoSlash(parts: seq<string>) {
    forall i :: 0 <= i < |parts| ==> '/' !in parts[i]
  }

  lemma {:induction false} ResolvedPieces(dir: seq<string>, parts: seq<string>)
    requires NoSlash(dir) && NoSlash(parts)
    ensures NoSlash(Resolved(dir, parts))
    decreases |parts|
  {
    if parts != [] {
      var p := parts[0];
      var next := if p == "" || p == "." then dir else if p == ".." then (if dir == [] then [] else Front(dir)) else dir + [p];
      ResolvedPieces(next, parts[1..]);
    }
  }

  /** The accepted file ids are exactly those that name an entry of the data directory itself. */
  lemma IdsConfined(dir: seq<string>, f: string)
    requires NoSlash(dir)
    ensures ValidFileId(f) <==> Resolved(dir, Split(f, '/')) == dir + [f]
  {
    if '/' in f {
      ResolvedPieces(dir, Split(f, '/'));
      var r := dir + [f];
      assert r[|dir|] == f && !NoSlash(r);
    } else {
      SplitPlain(f, '/');
      assert Resolved(dir, [f]) == Resolved(Resolved(dir, [f]), []);
      if f == "" || f == "." || f == ".." {
        assert |Resolved(dir, [f])| <= |dir|;
      }
    }
  }
}
