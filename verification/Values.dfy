/** Field values and keys: the order the B+ tree compares keys by, and the 32-byte key blobs of
    the hash index. */
module Values {
  import opened Pages

  datatype FieldType = IntT | StrT
  datatype Value = IntV(n: int) | StrV(s: string)
  type Row = seq<Value>

  const STR_FIELD_SIZE := 32

  predicate OfType(v: Value, t: FieldType) {
    match t case IntT => v.IntV? case StrT => v.StrV?
  }

  /** ASCII without a trailing NUL: what survives padding to a fixed field. */
  predicate PlainText(s: string) {
    (forall i :: 0 <= i < |s| ==> s[i] as int < 128) && (s != [] ==> s[|s| - 1] != '\0')
  }

  /** 32-bit integers, and plain text of at most 32 characters. */
  predicate Storable(v: Value) {
    match v
    case IntV(n) => -0x8000_0000 <= n < 0x8000_0000
    case StrV(s) => |s| <= STR_FIELD_SIZE && PlainText(s)
  }

  // ---------------------------------------------------------------- key order

  /** Python's order of strings: by the first character that differs, a proper prefix first. */
  predicate StrLess(s: string, t: string) {
    t != [] && (s == [] || s[0] < t[0] || (s[0] == t[0] && StrLess(s[1..], t[1..])))
  }

  predicate Less(a: Value, b: Value) {
    match (a, b)
    case (IntV(m), IntV(n)) => m < n
    case (StrV(s), StrV(t)) => StrLess(s, t)
    case _ => false
  }

  /** The NUL-padded field of w characters, read as one big-endian number. */
  function Padded(s: string, w: nat): nat {
    if w == 0 || s == [] then 0 else s[0] as int * Pow256(w - 1) + Padded(s[1..], w - 1)
  }

  /** Keys as integers. */
  function Rank(v: Value): int {
    match v
    case IntV(n) => n
    case StrV(s) => Padded(s, STR_FIELD_SIZE)
  }

  lemma {:induction false} PaddedBound(s: string, w: nat)
    requires PlainText(s)
    ensures Padded(s, w) < Pow256(w)
  {
    if w > 0 && s != [] {
      PaddedBound(s[1..], w - 1);
      var c, p := s[0] as int, Pow256(w - 1);
      assert c * p + p == (c + 1) * p;
      MulMonotone(c + 1, 256, p);
    }
  }

  lemma MulMonotone(a: nat, b: nat, p: nat)
    requires a <= b
    ensures a * p <= b * p
  {
    assert b * p == a * p + (b - a) * p;
  }

  lemma {:induction false} PaddedPositive(s: string, w: nat)
    requires PlainText(s) && 0 < |s| <= w
    ensures Padded(s, w) > 0
  {
    var c, p := s[0] as int, Pow256(w - 1);
    if |s| == 1 {
      assert s[0] != '\0';
      MulMonotone(1, c, p);
    } else {
      PaddedPositive(s[1..], w - 1);
      MulMonotone(0, c, p);
    }
  }

  /** Padding keeps the order and loses no string. */
  lemma {:induction false} PaddedOrder(s: string, t: string, w: nat)
    requires PlainText(s) && PlainText(t) && |s| <= w && |t| <= w
    ensures Padded(s, w) < Padded(t, w) <==> StrLess(s, t)
    ensures Padded(s, w) == Padded(t, w) <==> s == t
  {
    if s == [] || t == [] {
      if s != [] {
        PaddedPositive(s, w);
      }
      if t != [] {
        PaddedPositive(t, w);
      }
    } else {
      PaddedOrder(s[1..], t[1..], w - 1);
      PaddedBound(s[1..], w - 1);
      PaddedBound(t[1..], w - 1);
      FirstDigit(s[0] as int, t[0] as int, Pow256(w - 1), Padded(s[1..], w - 1), Padded(t[1..], w - 1));
      assert s == [s[0]] + s[1..] && t == [t[0]] + t[1..];
    }
  }

  lemma FirstDigit(c: nat, d: nat, p: nat, x: nat, y: nat)
    requires x < p && y < p
    ensures c * p + x < d * p + y <==> c < d || (c == d && x < y)
    ensures c * p + x == d * p + y <==> c == d && x == y
  {
    if c < d {
      MulMonotone(c + 1, d, p);
      assert (c + 1) * p == c * p + p;
    } else if d < c {
      MulMonotone(d + 1, c, p);
      assert (d + 1) * p == d * p + p;
    }
  }

  /** The B+ tree may compare ranks: they order keys of one type as the source does. */
  lemma RankOrder(a: Value, b: Value, t: FieldType)
    requires OfType(a, t) && OfType(b, t) && Storable(a) && Storable(b)
    ensures Rank(a) < Rank(b) <==> Less(a, b)
    ensures Rank(a) == Rank(b) <==> a == b
  {
    if t == StrT {
      PaddedOrder(a.s, b.s, STR_FIELD_SIZE);
    }
  }

  // ---------------------------------------------------------------- hash key blobs

  function Digit(d: nat): char
    requires d < 10
  {
    ('0' as int + d) as char
  }

  /** str(n) */
  function Decimal(n: int): string {
    if n < 0 then "-" + Digits(-n) else Digits(n)
  }

  function Digits(n: nat): (s: string)
    ensures s != [] && forall i :: 0 <= i < |s| ==> '0' <= s[i] <= '9'
  {
    if n < 10 then [Digit(n)] else Digits(n / 10) + [Digit(n % 10)]
  }

  /** int(raw) on what str(int) can produce; other text is refused. */
  function ParseInt(s: string): Option<int> {
    if s != [] && s[0] == '-' then
      match ParseDigits(s[1..]) case None => None case Some(n) => Some(-n)
    else ParseDigits(s)
  }

  function ParseDigits(s: string): (r: Option<int>)
    ensures r.Some? ==> r.value >= 0
  {
    if s == [] || !('0' <= s[|s| - 1] <= '9') then None
    else
      var d := s[|s| - 1] as int - '0' as int;
      if |s| == 1 then Some(d)
      else match ParseDigits(s[..|s| - 1]) case None => None case Some(n) => Some(10 * n + d)
  }

  lemma {:induction false} DigitsRoundTrip(n: nat)
    ensures ParseDigits(Digits(n)) == Some(n)
  {
    if n >= 10 {
      DigitsRoundTrip(n / 10);
      var s := Digits(n);
      assert s[..|s| - 1] == Digits(n / 10) && s[|s| - 1] == Digit(n % 10);
    }
  }

  lemma DecimalRoundTrip(n: int)
    ensures ParseInt(Decimal(n)) == Some(n)
  {
    hide Digits, ParseDigits;
    if n < 0 {
      DigitsRoundTrip(-n);
      assert Decimal(n)[1..] == Digits(-n);
    } else {
      DigitsRoundTrip(n);
    }
  }

  /** Place values: no leading zero, and the digit i places from the right counts the 10^i. */
  lemma {:induction false} DigitAt(n: nat, i: nat)
    requires i < |Digits(n)|
    ensures var s := Digits(n); s[|s| - 1 - i] == Digit(n / Pow10(i) % 10)
    ensures n >= 10 ==> n >= Pow10(|Digits(n)| - 1)
  {
    if n >= 10 {
      DigitAt(n / 10, if i > 0 then i - 1 else 0);
      if i > 0 {
        DivTwice(n, 10, Pow10(i - 1));
      }
    }
  }

  lemma {:induction false} DigitsLength(n: nat, w: nat)
    requires w >= 1 && n < Pow10(w)
    ensures |Digits(n)| <= w
  {
    if n >= 10 {
      DigitsLength(n / 10, w - 1);
    }
  }

  function Pow10(w: nat): (p: nat)
    ensures p > 0
  {
    if w == 0 then 1 else 10 * Pow10(w - 1)
  }

  function ToBytes(s: string): (b: Bytes)
    requires forall i :: 0 <= i < |s| ==> s[i] as int < 128
    ensures |b| == |s|
  {
    seq(|s|, i requires 0 <= i < |s| => s[i] as int as byte)
  }

  function ToText(b: Bytes): (s: string)
    ensures |s| == |b|
  {
    seq(|b|, i requires 0 <= i < |b| => b[i] as int as char)
  }

  /** rstrip of NUL bytes */
  function Stripped(b: Bytes): (r: Bytes)
    ensures r <= b
  {
    if b != [] && b[|b| - 1] == 0 then Stripped(b[..|b| - 1]) else b
  }

  function KeyText(v: Value): string {
    match v case IntV(n) => Decimal(n) case StrV(s) => s
  }

  lemma KeyTextFits(v: Value)
    requires Storable(v)
    ensures |KeyText(v)| <= STR_FIELD_SIZE && PlainText(KeyText(v))
  {
    if v.IntV? {
      assert Pow10(10) == 10000000000;
      DigitsLength(if v.n < 0 then -v.n else v.n, 10);
    }
  }

  /** `encode_key`: decimal digits or the text itself, padded to 32 bytes. */
  function EncodeKey(v: Value): (b: Bytes)
    requires Storable(v)
    ensures |b| == STR_FIELD_SIZE
  {
    KeyTextFits(v);
    var b := ToBytes(KeyText(v));
    b + Zeros(STR_FIELD_SIZE - |b|)
  }

  /** `decode_key` */
  function DecodeKey(b: Bytes, t: FieldType): Option<Value> {
    var s := ToText(Stripped(b));
    match t
    case IntT => (match ParseInt(s) case None => None case Some(n) => Some(IntV(n)))
    case StrT => Some(StrV(s))
  }

  lemma {:induction false} StripPadding(b: Bytes, n: nat)
    requires b == [] || b[|b| - 1] != 0
    ensures Stripped(b + Zeros(n)) == b
  {
    var p := b + Zeros(n);
    if n == 0 {
      assert p == b;
    } else {
      assert p[..|p| - 1] == b + Zeros(n - 1);
      StripPadding(b, n - 1);
    }
  }

  /** A key blob decodes to the key it was made from, so equal blobs are equal keys. */
  lemma KeyRoundTrip(v: Value, t: FieldType)
    requires Storable(v) && OfType(v, t)
    ensures DecodeKey(EncodeKey(v), t) == Some(v)
  {
    KeyTextFits(v);
    var s := KeyText(v);
    var b := ToBytes(s);
    StripPadding(b, STR_FIELD_SIZE - |b|);
    assert ToText(b) == s;
    if t == IntT {
      DecimalRoundTrip(v.n);
    }
  }

  function OrdSum(s: string): nat {
    if s == [] then 0 else OrdSum(s[..|s| - 1]) + s[|s| - 1] as int
  }

  /** `hash_key` */
  function HashKey(v: Value, buckets: nat): (h: nat)
    requires buckets > 0
    ensures h < buckets
  {
    match v case IntV(n) => n % buckets case StrV(s) => OrdSum(s) % buckets
  }

  lemma AtLeastOnce(n: int, b: nat)
    requires n >= 1
    ensures n * b >= b
  {
  }

  /** Quotient and remainder are unique. */
  lemma ModUnique(x: int, q: int, r: int, b: nat)
    requires b > 0 && x == q * b + r && 0 <= r < b
    ensures x % b == r
  {
    var q0, r0 := x / b, x % b;
    assert x == q0 * b + r0;
    assert (q - q0) * b == r0 - r;
    if q > q0 {
      AtLeastOnce(q - q0, b);
    } else if q < q0 {
      assert (q0 - q) * b == r - r0;
      AtLeastOnce(q0 - q, b);
    }
  }

  lemma ModStep(x: int, c: int, b: nat)
    requires b > 0
    ensures (x + c) % b == (x % b + c) % b
  {
    var q, y := x / b, x % b + c;
    assert x == q * b + x % b && y == y / b * b + y % b;
    assert (q + y / b) * b == q * b + y / b * b;
    ModUnique(x + c, q + y / b, y % b, b);
  }

  /** Consecutive integers go to consecutive buckets in turn, from 0 on in both directions; a text moves on by the code
      of each character. */
  lemma HashSteps(n: int, s: string, c: char, buckets: nat)
    requires buckets > 0
    ensures HashKey(IntV(0), buckets) == 0 && HashKey(StrV(""), buckets) == 0
    ensures HashKey(IntV(n + 1), buckets) == (HashKey(IntV(n), buckets) + 1) % buckets
    ensures HashKey(StrV(s + [c]), buckets) == (HashKey(StrV(s), buckets) + c as int) % buckets
  {
    ModStep(n, 1, buckets);
    assert (s + [c])[..|s|] == s;
    ModStep(OrdSum(s), c as int, buckets);
  }
}
