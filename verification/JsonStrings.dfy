/** String literals: the size estimate of the first pass covers what the second pass writes,
    and \u escapes decode to UTF-8. */
module JsonStrings {
  import opened Bytes
  import opened Bits
  import opened JsonValue
  import opened JsonParser

  // ---- two passes ----

  /** Escapes that the first pass, started at `i`, meets before position `p`. */
  ghost function Skips(c: Text, i: nat, p: nat): (n: nat)
    requires p <= |c|
    decreases p - i
  {
    if i >= p then 0
    else if c[i] == BACKSLASH then 1 + Skips(c, i + 2, p)
    else Skips(c, i + 1, p)
  }

  lemma {:induction false} SkipsOneMore(c: Text, i: nat, p: nat)
    requires p < |c|
    ensures Skips(c, i, p) <= Skips(c, i, p + 1) <= Skips(c, i, p) + 1
    ensures c[p] != BACKSLASH ==> Skips(c, i, p + 1) == Skips(c, i, p)
    decreases p - i
  {
    if i < p {
      SkipsOneMore(c, if c[i] == BACKSLASH then i + 2 else i + 1, p);
    }
  }

  /** The first pass steps over pairs, so two neighbours hold at most one of its escapes. */
  lemma {:induction false} SkipsTwoMore(c: Text, i: nat, p: nat)
    requires p + 2 <= |c|
    ensures Skips(c, i, p + 2) <= Skips(c, i, p) + 1
    decreases p - i
  {
    if i < p {
      SkipsTwoMore(c, if c[i] == BACKSLASH then i + 2 else i + 1, p);
    } else if i == p && c[i] != BACKSLASH {
      assert Skips(c, i + 1, p + 2) <= 1;
    }
  }

  /** Both passes agree on the number of escapes, and none of them starts on the last byte. */
  lemma {:induction false} SkipsOfScan(c: Text, i: nat)
    requires ScanEnd(c, i).Ok?
    ensures var end := ScanEnd(c, i).value;
            Skips(c, i, end) == ScanEnd(c, i).next
            && (i < end ==> Skips(c, i, end - 1) == Skips(c, i, end))
    decreases |c| - i
  {
    if c[i] != QUOTE {
      SkipsOfScan(c, if c[i] == BACKSLASH then i + 2 else i + 1);
    }
  }

  /** Output bytes that the estimate grants the raw bytes [start, p). */
  ghost function Room(c: Text, start: nat, p: nat): int
    requires p <= |c|
  {
    p - start - Skips(c, start, p)
  }

  lemma {:induction false} RoomGrows(c: Text, start: nat, p: nat, q: nat)
    requires start <= p <= q <= |c|
    ensures Room(c, start, p) <= Room(c, start, q)
    decreases q - p
  {
    if p < q {
      SkipsOneMore(c, start, p);
      RoomGrows(c, start, p + 1, q);
    }
  }

  lemma SixRawBytes(c: Text, start: nat, p: nat)
    requires start <= p && p + 6 <= |c|
    ensures Room(c, start, p + 6) >= Room(c, start, p) + 3
    ensures (forall k :: p < k < p + 6 ==> c[k] != BACKSLASH) ==> Room(c, start, p + 6) >= Room(c, start, p) + 5
  {
    SkipsTwoMore(c, start, p);
    SkipsTwoMore(c, start, p + 2);
    SkipsTwoMore(c, start, p + 4);
    if forall k :: p < k < p + 6 ==> c[k] != BACKSLASH {
      SkipsOneMore(c, start, p);
      SkipsOneMore(c, start, p + 1);
      SkipsOneMore(c, start, p + 2);
      SkipsOneMore(c, start, p + 3);
      SkipsOneMore(c, start, p + 4);
      SkipsOneMore(c, start, p + 5);
    }
  }

  lemma UnicodeFits(c: Text, start: nat, p: nat, end: nat)
    requires start <= p <= end <= |c| && end - p >= 6 && c[p] == BACKSLASH && c[p + 1] == 117
    requires Utf16Literal(c, p, end).Ok?
    ensures var r := Utf16Literal(c, p, end);
            Room(c, start, p + r.next) >= Room(c, start, p) + |Utf8(r.value)|
  {
    SixRawBytes(c, start, p);
    var r := Utf16Literal(c, p, end);
    hide Skips;
    if r.next == 12 {
      SixRawBytes(c, start, p + 6);
    }
  }

  /** One turn of the second pass stays inside the estimate, in step with the first pass or not. */
  lemma SimpleEscapeFits(c: Text, start: nat, p: nat, end: nat)
    requires start <= p < end < |c| && ScanEnd(c, start).Ok? && ScanEnd(c, start).value == end
    ensures Room(c, start, if p + 2 <= end then p + 2 else end) >= Room(c, start, p) + 1
  {
    if p + 2 <= end {
      SkipsTwoMore(c, start, p);
    } else {
      SkipsOfScan(c, start);
    }
  }

  /** What the second pass writes, up to the end or to the escape that makes it fail. */
  function Output(c: Text, p: nat, end: nat): Text
    requires end < |c|
    decreases end - p
  {
    if p >= end then []
    else if c[p] != BACKSLASH then [c[p]] + Output(c, p + 1, end)
    else if c[p + 1] == 117 then
      match Utf16Literal(c, p, end)
      case Fail => []
      case Ok(cp, n) => Utf8(cp) + Output(c, p + n, end)
    else
      match SimpleEscape(c[p + 1])
      case None => []
      case Some(b) => [b] + Output(c, p + 2, end)
  }

  lemma {:induction false} OutputIsDecoded(c: Text, p: nat, end: nat)
    requires end < |c|
    ensures Decode(c, p, end).Some? ==> Decode(c, p, end).value == Output(c, p, end)
    decreases end - p
  {
    hide Utf16Literal, Utf8, SimpleEscape;
    if p < end {
      if c[p] != BACKSLASH {
        OutputIsDecoded(c, p + 1, end);
      } else if c[p + 1] == 117 {
        var r := Utf16Literal(c, p, end);
        if r.Ok? { OutputIsDecoded(c, p + r.next, end); }
      } else {
        OutputIsDecoded(c, p + 2, end);
      }
    }
  }

  lemma {:induction false} SecondPassFitsFrom(c: Text, start: nat, p: nat, end: nat)
    requires start <= p && end < |c| && ScanEnd(c, start).Ok? && ScanEnd(c, start).value == end
    ensures Room(c, start, if p <= end then p else end) + |Output(c, p, end)| <= Room(c, start, end)
    decreases end - p
  {
    if p < end {
      RoomGrows(c, start, p, end);
      if c[p] != BACKSLASH {
        SkipsOneMore(c, start, p);
        SecondPassFitsFrom(c, start, p + 1, end);
      } else if c[p + 1] == 117 {
        if Utf16Literal(c, p, end).Ok? {
          UnicodeFits(c, start, p, end);
          SecondPassFitsFrom(c, start, p + Utf16Literal(c, p, end).next, end);
        }
      } else {
        SimpleEscapeFits(c, start, p, end);
        SecondPassFitsFrom(c, start, p + 2, end);
      }
    }
  }

  /** For every literal, also one that is rejected half way: the bytes written and their terminator fit
      the first pass's estimate, length of the literal from its opening quote less one byte for each
      escape. */
  lemma SecondPassFits(c: Text, off: nat)
    requires off < |c| && ScanEnd(c, off + 1).Ok?
    ensures var end := ScanEnd(c, off + 1).value;
            var skipped := ScanEnd(c, off + 1).next;
            && |Output(c, off + 1, end)| + 1 <= (end - off) - skipped
            && (Decode(c, off + 1, end).Some? ==> Decode(c, off + 1, end).value == Output(c, off + 1, end))
  {
    hide Decode, Output;
    var end := ScanEnd(c, off + 1).value;
    SkipsOfScan(c, off + 1);
    SecondPassFitsFrom(c, off + 1, off + 1, end);
    OutputIsDecoded(c, off + 1, end);
  }

  // ---- hexadecimal digits ----

  const LOWER_DIGITS := "0123456789abcdef"
  const UPPER_DIGITS := "0123456789ABCDEF"

  /** `b` is a hexadecimal digit of value `d`, in either case. */
  predicate IsDigitOf(b: Byte, d: nat)
    requires d < 16
  {
    b == LOWER_DIGITS[d] as int || b == UPPER_DIGITS[d] as int
  }

  /** Every digit is read as its value, and nothing else is a digit. */
  lemma DigitIsRead(b: Byte, d: nat)
    requires d < 16
    ensures HexValue(b) == Some(d) <==> IsDigitOf(b, d)
  {
    assert d == 0 || d == 1 || d == 2 || d == 3 || d == 4 || d == 5 || d == 6 || d == 7 || d == 8 || d == 9 || d == 10
        || d == 11 || d == 12 || d == 13 || d == 14 || d == 15;
  }

  /** The four digits of `n`, the most significant first, each in either case. */
  predicate Spells(h: Text, n: nat) {
    |h| == 4 && n < 0x10000 && IsDigitOf(h[0], n / 4096) && IsDigitOf(h[1], n / 256 % 16)
      && IsDigitOf(h[2], n / 16 % 16) && IsDigitOf(h[3], n % 16)
  }

  /** Four bytes are read as `n` just when they spell it. */
  lemma HexIsRead(h: Text, n: nat)
    requires |h| == 4 && n < 0x10000
    ensures IsHex4(h, 0) && Hex4(h, 0) == n <==> Spells(h, n)
  {
    hide HexValue, IsDigitOf;
    DigitIsRead(h[0], n / 4096);
    DigitIsRead(h[1], n / 256 % 16);
    DigitIsRead(h[2], n / 16 % 16);
    DigitIsRead(h[3], n % 16);
    FourDigits(n);
    if IsHex4(h, 0) && Hex4(h, 0) == n {
      DigitsOf(HexValue(h[0]).value, HexValue(h[1]).value, HexValue(h[2]).value, HexValue(h[3]).value);
    }
  }

  lemma FourDigits(n: nat)
    ensures n == 4096 * (n / 4096) + 256 * (n / 256 % 16) + 16 * (n / 16 % 16) + n % 16
  {
    var a, b, c := n / 16, n / 256, n / 4096;
    assert a / 16 == b && b / 16 == c;
    assert n == 16 * a + n % 16 && a == 16 * b + a % 16 && b == 16 * c + b % 16;
  }

  lemma DigitsOf(a: nat, b: nat, c: nat, d: nat)
    requires a < 16 && b < 16 && c < 16 && d < 16
    ensures var n := 4096 * a + 256 * b + 16 * c + d;
            n / 4096 == a && n / 256 % 16 == b && n / 16 % 16 == c && n % 16 == d
  {
    var n := 4096 * a + 256 * b + 16 * c + d;
    var p, q := 16 * a + b, 256 * a + 16 * b + c;
    assert n == 16 * q + d && q == 16 * p + c;
    assert n / 16 == q && n / 256 == p;
  }

  // ---- literals ----

  predicate IsScalar(cp: nat) {
    cp < 0x110000 && !(0xD800 <= cp <= 0xDFFF)
  }

  /** What stands behind a backslash and the byte that it stands for (section 7 of RFC 8259). */
  const SHORT_ESCAPES: seq<(char, nat)> :=
    [('\"', 0x22), ('\\', 0x5C), ('/', 0x2F), ('b', 0x08), ('f', 0x0C), ('n', 0x0A), ('r', 0x0D), ('t', 0x09)]

  /** One element of a string literal: a byte as it is, a short escape by its place in the table, or a
      scalar value as one or two \u escapes. */
  datatype Item = Raw(b: Byte) | Short(k: nat) | Unicode(cp: nat)

  predicate IsItem(x: Item) {
    match x
    case Raw(b) => b != QUOTE && b != BACKSLASH
    case Short(k) => k < |SHORT_ESCAPES|
    case Unicode(cp) => IsScalar(cp)
  }

  ghost predicate UnitAt(t: Text, unit: nat) {
    |t| >= 6 && t[0] == BACKSLASH && t[1] == 117 && Spells(t[2..6], unit)
  }

  function ItemLength(x: Item): nat {
    match x
    case Raw(_) => 1
    case Short(_) => 2
    case Unicode(cp) => if cp < 0x10000 then 6 else 12
  }

  /** The element as the text spells it: two UTF-16 units for a scalar value outside the basic plane. */
  ghost predicate ItemAt(t: Text, x: Item)
    requires IsItem(x)
  {
    ItemLength(x) <= |t| &&
    match x
    case Raw(b) => t[0] == b
    case Short(k) => t[0] == BACKSLASH && t[1] == SHORT_ESCAPES[k].0 as int
    case Unicode(cp) =>
      if cp < 0x10000 then UnitAt(t, cp)
      else UnitAt(t, 0xD800 + (cp - 0x10000) / 1024) && UnitAt(t[6..], 0xDC00 + (cp - 0x10000) % 1024)
  }

  /** `t` spells these elements one after the other. */
  ghost predicate EscapesTo(t: Text, xs: seq<Item>) {
    if xs == [] then t == []
    else IsItem(xs[0]) && ItemAt(t, xs[0]) && EscapesTo(t[ItemLength(xs[0])..], xs[1..])
  }

  ghost function ItemBytes(x: Item): Text
    requires IsItem(x)
  {
    match x
    case Raw(b) => [b]
    case Short(k) => assert k == 0 || k == 1 || k == 2 || k == 3 || k == 4 || k == 5 || k == 6 || k == 7;
                     [SHORT_ESCAPES[k].1]
    case Unicode(cp) => Utf8(cp)
  }

  ghost function Meaning(xs: seq<Item>): Text
    requires forall i :: 0 <= i < |xs| ==> IsItem(xs[i])
  {
    if xs == [] then [] else assert IsItem(xs[0]); ItemBytes(xs[0]) + Meaning(xs[1..])
  }

  /** A byte that continues a sequence, and its six bits. */
  predicate Continues(b: Byte, bits: int) {
    0 <= bits < 64 && b == 128 + bits
  }

  /** The table of section 3 of RFC 3629: how many bytes, the first one by their number, six bits in each other. */
  lemma Utf8Is(cp: nat)
    requires cp < 0x110000
    ensures var t := Utf8(cp);
            || (cp <= 0x7F && t == [cp])
            || (0x80 <= cp <= 0x7FF && |t| == 2 && 192 <= t[0] < 224
                && exists x: int :: Continues(t[1], x) && cp == 64 * (t[0] - 192) + x)
            || (0x800 <= cp <= 0xFFFF && |t| == 3 && 224 <= t[0] < 240
                && exists x: int, y: int :: Continues(t[1], x) && Continues(t[2], y)
                                            && cp == 4096 * (t[0] - 224) + 64 * x + y)
            || (0x10000 <= cp && |t| == 4 && 240 <= t[0] < 248
                && exists x: int, y: int, z: int :: Continues(t[1], x) && Continues(t[2], y) && Continues(t[3], z)
                                                    && cp == 262144 * (t[0] - 240) + 4096 * x + 64 * y + z)
  {
    var z, y, x := cp % 64, cp / 64 % 64, cp / 4096 % 64;
    assert cp / 64 / 64 == cp / 4096 && cp / 4096 / 64 == cp / 262144;
    assert cp == 64 * (cp / 64) + z && cp / 64 == 64 * (cp / 4096) + y && cp / 4096 == 64 * (cp / 262144) + x;
    var t := Utf8(cp);
    if |t| == 2 {
      assert Continues(t[1], z);
    } else if |t| == 3 {
      assert Continues(t[1], y) && Continues(t[2], z);
    } else if |t| == 4 {
      assert Continues(t[1], x) && Continues(t[2], y) && Continues(t[3], z);
    }
  }

  lemma {:induction false} ItemsOf(t: Text, xs: seq<Item>)
    requires EscapesTo(t, xs)
    ensures forall i :: 0 <= i < |xs| ==> IsItem(xs[i])
  {
    if xs != [] { ItemsOf(t[ItemLength(xs[0])..], xs[1..]); }
  }

  lemma UnitIn(c: Text, p: nat, t: Text, unit: nat)
    requires At(c, p, t) && UnitAt(t, unit)
    ensures p + 6 <= |c| && c[p] == BACKSLASH && c[p + 1] == 117
    ensures IsHex4(c, p + 2) && Hex4(c, p + 2) == unit
    ensures forall k :: p < k < p + 6 ==> c[k] != BACKSLASH && c[k] != QUOTE
  {
    hide Spells, HexValue;
    forall k | 0 <= k < 6 ensures c[p + k] == t[k] { AtByte(c, p, t, k); }
    var h := t[2..6];
    SpellsBelow(h, unit);
    HexIsRead(h, unit);
    assert h[0] == t[2] && h[1] == t[3] && h[2] == t[4] && h[3] == t[5];
    HexBytes(h);
  }

  lemma SpellsBelow(h: Text, n: nat)
    requires Spells(h, n)
    ensures |h| == 4 && n < 0x10000
  {
  }

  lemma HexBytes(h: Text)
    requires |h| == 4 && IsHex4(h, 0)
    ensures forall k :: 0 <= k < 4 ==> h[k] != BACKSLASH && h[k] != QUOTE
  {
  }

  lemma UnicodeIn(c: Text, p: nat, t: Text, cp: nat, end: nat)
    requires IsScalar(cp) && At(c, p, t) && ItemAt(t, Unicode(cp)) && p + ItemLength(Unicode(cp)) <= end <= |c|
    ensures Utf16Literal(c, p, end) == Ok(cp, ItemLength(Unicode(cp)))
    ensures c[p] == BACKSLASH && c[p + 1] == 117
  {
    hide Hex4, IsHex4, At, UnitAt;
    if cp < 0x10000 {
      UnitIn(c, p, t, cp);
    } else {
      UnitIn(c, p, t, 0xD800 + (cp - 0x10000) / 1024);
      assert t == t[..6] + t[6..];
      AtSplit(c, p, t[..6], t[6..]);
      UnitIn(c, p + 6, t[6..], 0xDC00 + (cp - 0x10000) % 1024);
    }
  }

  lemma UnitScan(c: Text, p: nat)
    requires p + 6 <= |c| && c[p] == BACKSLASH
    requires forall k :: p < k < p + 6 ==> c[k] != BACKSLASH && c[k] != QUOTE
    ensures ScanEnd(c, p).Ok? == ScanEnd(c, p + 6).Ok?
    ensures ScanEnd(c, p).Ok? ==> ScanEnd(c, p).value == ScanEnd(c, p + 6).value
  {
    assert ScanEnd(c, p + 2) == ScanEnd(c, p + 3);
    assert ScanEnd(c, p + 3) == ScanEnd(c, p + 4);
    assert ScanEnd(c, p + 4) == ScanEnd(c, p + 5);
    assert ScanEnd(c, p + 5) == ScanEnd(c, p + 6);
  }

  /** The first pass goes over an element as a whole. */
  lemma ItemScan(c: Text, p: nat, t: Text, x: Item)
    requires IsItem(x) && At(c, p, t) && ItemAt(t, x)
    ensures p + ItemLength(x) <= |c|
    ensures ScanEnd(c, p).Ok? == ScanEnd(c, p + ItemLength(x)).Ok?
    ensures ScanEnd(c, p).Ok? ==> ScanEnd(c, p).value == ScanEnd(c, p + ItemLength(x)).value
  {
    AtByte(c, p, t, 0);
    match x
    case Raw(b) =>
    case Short(k) =>
    case Unicode(cp) =>
      hide ScanEnd;
      if cp < 0x10000 {
        UnitIn(c, p, t, cp);
        UnitScan(c, p);
      } else {
        UnitIn(c, p, t, 0xD800 + (cp - 0x10000) / 1024);
        UnitScan(c, p);
        assert t == t[..6] + t[6..];
        AtSplit(c, p, t[..6], t[6..]);
        UnitIn(c, p + 6, t[6..], 0xDC00 + (cp - 0x10000) % 1024);
        UnitScan(c, p + 6);
      }
  }

  lemma ShortIsRead(k: nat)
    requires k < |SHORT_ESCAPES|
    ensures SHORT_ESCAPES[k].0 as int < 128 && SHORT_ESCAPES[k].0 as int != 117 && SHORT_ESCAPES[k].1 < 128
    ensures SimpleEscape(SHORT_ESCAPES[k].0 as int) == Some(SHORT_ESCAPES[k].1)
  {
    assert k == 0 || k == 1 || k == 2 || k == 3 || k == 4 || k == 5 || k == 6 || k == 7;
  }

  /** The second pass decodes one element. */
  lemma ItemDecodes(c: Text, p: nat, t: Text, x: Item, end: nat)
    requires IsItem(x) && At(c, p, t) && ItemAt(t, x) && p + ItemLength(x) <= end < |c|
    ensures Decode(c, p, end) == Prefixed(ItemBytes(x), Decode(c, p + ItemLength(x), end))
  {
    hide Utf8, UnitAt, Utf16Literal, SimpleEscape, At;
    AtByte(c, p, t, 0);
    match x
    case Raw(b) =>
    case Short(k) =>
      AtByte(c, p, t, 1);
      ShortIsRead(k);
    case Unicode(cp) =>
      UnicodeIn(c, p, t, cp, end);
  }

  lemma PrefixedTwice(a: Text, b: Text, r: Option<Text>)
    ensures Prefixed(a, Prefixed(b, r)) == Prefixed(a + b, r)
  {
    if r.Some? { assert a + (b + r.value) == a + b + r.value; }
  }

  lemma {:induction false} FirstItem(t: Text, xs: seq<Item>)
    requires EscapesTo(t, xs) && xs != []
    ensures var n := ItemLength(xs[0]);
            && IsItem(xs[0]) && ItemAt(t, xs[0]) && n <= |t| && t == t[..n] + t[n..] && EscapesTo(t[n..], xs[1..])
  {
    ItemFits(t, xs[0]);
    hide ItemAt, IsItem;
  }

  lemma ItemFits(t: Text, x: Item)
    requires IsItem(x) && ItemAt(t, x)
    ensures ItemLength(x) <= |t|
  {
  }

  lemma NoItems(t: Text, xs: seq<Item>, r: Option<Text>)
    requires EscapesTo(t, xs) && xs == []
    ensures t == [] && Prefixed(Meaning(xs), r) == r
  {
    if r.Some? { assert [] + r.value == r.value; }
  }

  lemma {:induction false} MeaningStep(xs: seq<Item>)
    requires xs != [] && forall i :: 0 <= i < |xs| ==> IsItem(xs[i])
    ensures Meaning(xs) == ItemBytes(xs[0]) + Meaning(xs[1..])
  {
  }

  /** Both passes go over spelled elements as over a prefix. */
  lemma {:induction false} ItemsDecode(c: Text, p: nat, t: Text, xs: seq<Item>, end: nat)
    requires EscapesTo(t, xs) && At(c, p, t) && p + |t| <= end < |c|
    ensures forall i :: 0 <= i < |xs| ==> IsItem(xs[i])
    ensures Decode(c, p, end) == Prefixed(Meaning(xs), Decode(c, p + |t|, end))
    ensures ScanEnd(c, p).Ok? == ScanEnd(c, p + |t|).Ok?
    ensures ScanEnd(c, p).Ok? ==> ScanEnd(c, p).value == ScanEnd(c, p + |t|).value
    decreases |xs|
  {
    hide ScanEnd, Decode, At, ItemAt, ItemBytes, EscapesTo, Meaning, Prefixed, IsItem, ItemLength;
    ItemsOf(t, xs);
    if xs == [] {
      NoItems(t, xs, Decode(c, p, end));
    } else {
      var n := ItemLength(xs[0]);
      FirstItem(t, xs);
      AtSplit(c, p, t[..n], t[n..]);
      ItemsDecode(c, p + n, t[n..], xs[1..], end);
      ItemDecodes(c, p, t, xs[0], end);
      ItemScan(c, p, t, xs[0]);
      MeaningStep(xs);
      PrefixedTwice(ItemBytes(xs[0]), Meaning(xs[1..]), Decode(c, p + |t|, end));
    }
  }

  /** A string literal, spelled with plain bytes, short escapes and \u escapes in either case of digits, is
      parsed to what its elements stand for, up to a NUL (section 7 of RFC 8259, section 3 of RFC 3629). */
  lemma UnicodeEscapes(c: Text, off: nat, t: Text, xs: seq<Item>)
    requires EscapesTo(t, xs) && At(c, off, [QUOTE] + t + [QUOTE])
    ensures forall i :: 0 <= i < |xs| ==> IsItem(xs[i])
    ensures ParseString(c, off) == Ok(CString(Meaning(xs)), off + |t| + 2)
  {
    hide ScanEnd, Decode, At, EscapesTo, CString, Meaning, NulFree;
    AtSplit(c, off, [QUOTE] + t, [QUOTE]);
    AtSplit(c, off, [QUOTE], t);
    AtByte(c, off, [QUOTE], 0);
    var end := off + 1 + |t|;
    AtByte(c, end, [QUOTE], 0);
    ItemsDecode(c, off + 1, t, xs, end);
    EndOfLiteral(c, end);
    assert Meaning(xs) + [] == Meaning(xs);
  }

  lemma EndOfLiteral(c: Text, end: nat)
    requires end < |c| && c[end] == QUOTE
    ensures Decode(c, end, end) == Some([]) && ScanEnd(c, end) == Ok(end, 0)
  {
  }

  /** What no literal may go on with: a backslash and a byte that is neither in the table nor `u`, or the
      escape of a low surrogate, or of a high one that no low one follows. */
  ghost predicate Misspelled(t: Text) {
    || (|t| >= 2 && t[0] == BACKSLASH && t[1] != 117
        && forall k :: 0 <= k < |SHORT_ESCAPES| ==> t[1] != SHORT_ESCAPES[k].0 as int)
    || exists unit: nat :: UnitAt(t, unit)
         && (0xDC00 <= unit <= 0xDFFF
             || (0xD800 <= unit <= 0xDBFF && forall low: nat :: UnitAt(t[6..], low) ==> !(0xDC00 <= low <= 0xDFFF)))
  }

  lemma UnknownEscape(b: Byte)
    requires forall k :: 0 <= k < |SHORT_ESCAPES| ==> b != SHORT_ESCAPES[k].0 as int
    ensures SimpleEscape(b) == None && b != QUOTE && b != BACKSLASH
  {
    assert b != SHORT_ESCAPES[0].0 as int && b != SHORT_ESCAPES[1].0 as int && b != SHORT_ESCAPES[2].0 as int
        && b != SHORT_ESCAPES[3].0 as int && b != SHORT_ESCAPES[4].0 as int && b != SHORT_ESCAPES[5].0 as int
        && b != SHORT_ESCAPES[6].0 as int && b != SHORT_ESCAPES[7].0 as int;
  }

  /** A low surrogate that is read was spelled. */
  lemma LowSpelled(c: Text, p: nat, t: Text)
    requires At(c, p, t) && p + 6 <= |c| && |t| >= 6 && c[p] == BACKSLASH && c[p + 1] == 117
    requires IsLowSurrogate(Hex4(c, p + 2))
    ensures UnitAt(t, Hex4(c, p + 2))
  {
    forall k | 0 <= k < 6 ensures c[p + k] == t[k] { AtByte(c, p, t, k); }
    var h := t[2..6];
    hide HexValue, Spells;
    HexIsRead(h, Hex4(c, p + 2));
  }

  /** The second pass fails there. */
  lemma MisspelledFails(c: Text, p: nat, t: Text, end: nat)
    requires Misspelled(t) && At(c, p, t) && p + |t| == end < |c|
    ensures Decode(c, p, end) == None
  {
    AtByte(c, p, t, 0);
    AtByte(c, p, t, 1);
    if t[1] != 117 {
      UnknownEscape(t[1]);
    } else {
      var unit: nat :| UnitAt(t, unit)
         && (0xDC00 <= unit <= 0xDFFF
             || (0xD800 <= unit <= 0xDBFF && forall low: nat :: UnitAt(t[6..], low) ==> !(0xDC00 <= low <= 0xDFFF)));
      UnitIn(c, p, t, unit);
      if IsHighSurrogate(unit) && Utf16Literal(c, p, end).Ok? {
        assert t == t[..6] + t[6..];
        AtSplit(c, p, t[..6], t[6..]);
        LowSpelled(c, p + 6, t[6..]);
        assert false;
      }
    }
  }

  /** A literal that is misspelled behind any elements is refused, whatever the rest of it is. */
  lemma MisspelledLiteral(c: Text, off: nat, t: Text, xs: seq<Item>, bad: Text)
    requires EscapesTo(t, xs) && Misspelled(bad) && At(c, off, [QUOTE] + t + bad) && off + 1 + |t + bad| < |c|
    requires ScanEnd(c, off + 1).Ok? ==> ScanEnd(c, off + 1).value == off + 1 + |t + bad|
    ensures ParseString(c, off) == Fail
  {
    hide ScanEnd, Decode, At, EscapesTo, CString, Meaning, NulFree, Misspelled;
    AtSplit(c, off, [QUOTE] + t, bad);
    AtSplit(c, off, [QUOTE], t);
    AtByte(c, off, [QUOTE], 0);
    var end := off + 1 + |t + bad|;
    ItemsDecode(c, off + 1, t, xs, end);
    MisspelledFails(c, off + 1 + |t|, bad, end);
  }

  // ---- the bit operations behind the arithmetic ----

  lemma MaskedStep(x: nat, y: nat, z: nat)
    ensures And(Or(x, y), z)
         == 2 * And(Or(x / 2, y / 2), z / 2) + if (x % 2 == 1 || y % 2 == 1) && z % 2 == 1 then 1 else 0
  {
    hide And, Or;
    OrStep(x, y);
    var u := Or(x, y);
    assert u / 2 == Or(x / 2, y / 2) && (u % 2 == 1 <==> x % 2 == 1 || y % 2 == 1);
    AndStep(u, z);
  }

  /** Two bits that are taken over as they are. */
  lemma TwoPlainBits(x: nat, y: nat, z: nat)
    requires y % 4 == 0 && z % 4 == 3
    ensures And(Or(x, y), z) == 4 * And(Or(x / 4, y / 4), z / 4) + x % 4
  {
    hide And, Or;
    MaskedStep(x, y, z);
    MaskedStep(x / 2, y / 2, z / 2);
    Quarter(x);
    Quarter(y);
    Quarter(z);
  }

  lemma Quarter(x: nat)
    ensures x / 2 / 2 == x / 4 && x % 4 == x % 2 + 2 * (x / 2 % 2)
  {
  }

  lemma TopBit(w: nat)
    ensures And(Or(w, 2), 2) == 2
  {
    hide And, Or;
    MaskedStep(w, 2, 2);
    MaskedStep(w / 2, 1, 1);
    AndZero(Or(w / 2 / 2, 0));
  }

  lemma SixBits(x: nat)
    ensures x % 64 == 16 * (x / 16 % 4) + 4 * (x / 4 % 4) + x % 4
  {
    LastTwo(x);
    MiddleTwo(x / 4);
  }

  lemma LastTwo(x: nat)
    ensures x % 64 == 4 * (x / 4 % 16) + x % 4
  {
    var a := x / 4;
    var q := a / 16;
    assert x == 64 * q + (4 * (a % 16) + x % 4);
  }

  lemma MiddleTwo(x: nat)
    ensures x % 16 == 4 * (x / 4 % 4) + x % 4
  {
    var a := x / 4;
    var q := a / 4;
    assert x == 16 * q + (4 * (a % 4) + x % 4);
  }

  /** A continuation byte: (codepoint | 0x80) & 0xBF. */
  lemma ContinuationByte(x: nat)
    ensures And(Or(x, 0x80), 0xBF) == 0x80 + x % 64
  {
    hide And, Or;
    TwoPlainBits(x, 0x80, 0xBF);
    TwoPlainBits(x / 4, 0x20, 0x2F);
    TwoPlainBits(x / 16, 8, 11);
    TopBit(x / 64);
    SixBits(x);
  }

  /** A lead byte: codepoint | first_byte_mark. */
  lemma LeadByte(x: nat, mark: nat)
    requires (mark == 0xC0 && x < 0x20) || (mark == 0xE0 && x < 0x10) || (mark == 0xF0 && x < 0x08)
    ensures Or(x, mark) == mark + x
  {
    assert Power(3) == 8 && Power(4) == 16 && Power(5) == 32;
    assert Left(6, 5) == 0xC0 && Left(14, 4) == 0xE0 && Left(30, 3) == 0xF0;
    hide Or, Power, Left;
    if mark == 0xC0 {
      OrDisjoint(x, 6, 5);
    } else if mark == 0xE0 {
      OrDisjoint(x, 14, 4);
    } else {
      OrDisjoint(x, 30, 3);
    }
  }

  /** A pair of surrogates: ((first & 0x3FF) << 10) | (second & 0x3FF). */
  lemma SurrogatePair(a: nat, b: nat)
    requires IsHighSurrogate(a) && IsLowSurrogate(b)
    ensures Or(1024 * And(a, 0x3FF), And(b, 0x3FF)) == 1024 * (a - 0xD800) + (b - 0xDC00)
  {
    hide And, Or, Left, Ones, Power;
    var x, y := a - 0xD800, b - 0xDC00;
    TenLeft(54);
    TenLeft(55);
    TenLeft(x);
    AndMask(x, 54, 10);
    AndMask(y, 55, 10);
    OrDisjoint(y, x, 10);
    OrCommutes(y, 1024 * x);
  }
}
