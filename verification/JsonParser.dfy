/** The recursive-descent JSON parser of cJSON.c as a function of the input buffer. */
module JsonParser {
  import opened Bytes
  import opened JsonValue

  const NESTING_LIMIT := 1000

  datatype Parsed<+T> = Fail | Ok(value: T, next: nat)

  // ---- white space: every byte up to 32, NUL included ----

  function WsEnd(c: Text, i: nat): (r: nat)
    requires i <= |c|
    ensures i <= r <= |c|
    ensures forall k :: i <= k < r ==> c[k] <= 32
    ensures r < |c| ==> c[r] > 32
    decreases |c| - i
  {
    if i < |c| && c[i] <= 32 then WsEnd(c, i + 1) else i
  }

  /** White space up to the end of the buffer leaves the offset on its last byte. */
  function SkipWs(c: Text, off: nat): (r: nat)
    requires off <= |c|
    ensures off <= r <= |c|
    ensures off < |c| ==> r < |c|
  {
    if off == |c| then off
    else if WsEnd(c, off) == |c| then |c| - 1
    else WsEnd(c, off)
  }

  // ---- numbers ----

  predicate IsDigit(b: Byte) { 48 <= b <= 57 }

  predicate IsNumberByte(b: Byte) {
    IsDigit(b) || b == 43 || b == 45 || b == 101 || b == 69 || b == 46
  }

  function NumberRunEnd(c: Text, i: nat): (r: nat)
    requires i <= |c|
    ensures i <= r <= |c|
    decreases |c| - i
  {
    if i < |c| && IsNumberByte(c[i]) then NumberRunEnd(c, i + 1) else i
  }

  function DigitsEnd(t: Text, i: nat): (r: nat)
    requires i <= |t|
    ensures i <= r <= |t|
    decreases |t| - i
  {
    if i < |t| && IsDigit(t[i]) then DigitsEnd(t, i + 1) else i
  }

  function DigitsValue(t: Text): (n: int) {
    if t == [] then 0 else 10 * DigitsValue(t[..|t| - 1]) + (t[|t| - 1] as int - 48)
  }

  function Pow10(n: nat): (r: real)
    ensures r > 0.0
  {
    if n == 0 then 1.0 else 10.0 * Pow10(n - 1)
  }

  function Scale(m: real, e: int): real {
    if e >= 0 then m * Pow10(e) else m / Pow10(-e)
  }

  /** End of an exponent part standing at `b`, or `b` when there is none. */
  function ExponentEnd(t: Text, b: nat): (r: nat)
    requires b <= |t|
    ensures b <= r <= |t|
  {
    if b < |t| && (t[b] == 101 || t[b] == 69) then
      var s := if b + 1 < |t| && (t[b + 1] == 43 || t[b + 1] == 45) then b + 2 else b + 1;
      var e := DigitsEnd(t, s);
      if e == s then b else e
    else b
  }

  function ExponentValue(t: Text, b: nat, e: nat): int
    requires b <= e <= |t|
  {
    if e <= b + 1 then 0
    else if t[b + 1] == 45 then -DigitsValue(t[b + 2..e])
    else if t[b + 1] == 43 then DigitsValue(t[b + 2..e])
    else DigitsValue(t[b + 1..e])
  }

  /** strtod in the C locale over the bytes that parse_number passes to it, without rounding.
      `next` is the number of bytes used. */
  function Strtod(t: Text): (r: Parsed<real>)
    ensures r.Ok? ==> 0 < r.next <= |t|
  {
    var s := if |t| > 0 && (t[0] == 43 || t[0] == 45) then 1 else 0;
    var a := DigitsEnd(t, s);
    var point := a < |t| && t[a] == 46;
    var b := if point then DigitsEnd(t, a + 1) else a;
    if a == s && (!point || b == a + 1) then Fail
    else
      var whole := DigitsValue(t[s..a]) as real;
      var mantissa := if point then whole + Scale(DigitsValue(t[a + 1..b]) as real, -((b - (a + 1)) as int)) else whole;
      var e := ExponentEnd(t, b);
      var magnitude := Scale(mantissa, ExponentValue(t, b, e));
      Ok(if s == 1 && t[0] == 45 then -magnitude else magnitude, e)
  }

  function ParseNumber(c: Text, off: nat): (r: Parsed<Value>)
    requires off <= |c|
    ensures r.Ok? ==> off < r.next <= |c|
  {
    match Strtod(c[off..NumberRunEnd(c, off)])
    case Fail => Fail
    case Ok(d, used) => Ok(Number(d), off + used)
  }

  // ---- strings ----

  /** First pass over a string literal: index of the closing quote, and the number of escapes. */
  function ScanEnd(c: Text, i: nat): (r: Parsed<nat>)
    ensures r.Ok? ==> i <= r.value < |c| && c[r.value] == QUOTE
    decreases |c| - i
  {
    if i >= |c| then Fail
    else if c[i] == QUOTE then Ok(i, 0)
    else if c[i] == BACKSLASH then
      if i + 1 >= |c| then Fail
      else match ScanEnd(c, i + 2)
           case Fail => Fail
           case Ok(end, n) => Ok(end, n + 1)
    else ScanEnd(c, i + 1)
  }

  function HexValue(b: Byte): (r: Option<nat>)
    ensures r.Some? ==> r.value < 16
  {
    if 48 <= b <= 57 then Some(b - 48)
    else if 65 <= b <= 70 then Some(b - 55)
    else if 97 <= b <= 102 then Some(b - 87)
    else None
  }

  predicate IsHex4(c: Text, i: nat)
    requires i + 4 <= |c|
  {
    HexValue(c[i]).Some? && HexValue(c[i + 1]).Some? && HexValue(c[i + 2]).Some? && HexValue(c[i + 3]).Some?
  }

  /** parse_hex4: four hexadecimal digits, or 0 when one of them is not. */
  function Hex4(c: Text, i: nat): (h: nat)
    requires i + 4 <= |c|
    ensures h < 0x10000
  {
    if IsHex4(c, i) then
      4096 * HexValue(c[i]).value + 256 * HexValue(c[i + 1]).value
      + 16 * HexValue(c[i + 2]).value + HexValue(c[i + 3]).value
    else 0
  }

  /** Section 3 of RFC 3629. */
  function Utf8(cp: nat): (t: Text)
    requires cp < 0x110000
    ensures |t| == if cp < 0x80 then 1 else if cp < 0x800 then 2 else if cp < 0x10000 then 3 else 4
  {
    if cp < 0x80 then [cp]
    else if cp < 0x800 then [0xC0 + cp / 64, 0x80 + cp % 64]
    else if cp < 0x10000 then [0xE0 + cp / 4096, 0x80 + cp / 64 % 64, 0x80 + cp % 64]
    else [0xF0 + cp / 262144, 0x80 + cp / 4096 % 64, 0x80 + cp / 64 % 64, 0x80 + cp % 64]
  }

  predicate IsHighSurrogate(u: nat) { 0xD800 <= u <= 0xDBFF }
  predicate IsLowSurrogate(u: nat) { 0xDC00 <= u <= 0xDFFF }

  /** utf16_literal_to_utf8: the code point at `p` and the length of its one or two sequences. */
  function Utf16Literal(c: Text, p: nat, end: nat): (r: Parsed<nat>)
    requires p <= end <= |c|
    ensures r.Ok? ==> r.value < 0x110000 && (r.next == 6 || r.next == 12) && p + r.next <= end
    ensures r.Ok? && r.next == 6 ==> r.value < 0x10000
    ensures r.Ok? && r.next == 12 ==>
              IsHex4(c, p + 2) && IsHex4(c, p + 8) && c[p + 6] == BACKSLASH && c[p + 7] == 117
    ensures r.Ok? && !IsHex4(c, p + 2) ==> r.value == 0
  {
    if end - p < 6 then Fail
    else
      var first := Hex4(c, p + 2);
      if IsLowSurrogate(first) then Fail
      else if IsHighSurrogate(first) then
        if end - (p + 6) < 6 then Fail
        else if c[p + 6] != BACKSLASH || c[p + 7] != 117 then Fail
        else
          var second := Hex4(c, p + 8);
          if !IsLowSurrogate(second) then Fail
          else Ok(0x10000 + 1024 * (first - 0xD800) + (second - 0xDC00), 12)
      else Ok(first, 6)
  }

  /** What a two-byte escape stands for. */
  function SimpleEscape(b: Byte): Option<Byte> {
    if b == 98 then Some(8)
    else if b == 102 then Some(12)
    else if b == 110 then Some(10)
    else if b == 114 then Some(13)
    else if b == 116 then Some(9)
    else if b == QUOTE || b == BACKSLASH || b == 47 then Some(b)
    else None
  }

  /** Second pass over a string literal: the bytes written for [p, end). */
  function Decode(c: Text, p: nat, end: nat): (r: Option<Text>)
    requires end < |c|
    decreases end - p
  {
    if p >= end then Some([])
    else if c[p] != BACKSLASH then Prefixed([c[p]], Decode(c, p + 1, end))
    else if c[p + 1] == 117 then
      match Utf16Literal(c, p, end)
      case Fail => None
      case Ok(cp, n) => Prefixed(Utf8(cp), Decode(c, p + n, end))
    else
      match SimpleEscape(c[p + 1])
      case None => None
      case Some(b) => Prefixed([b], Decode(c, p + 2, end))
  }

  function Prefixed(t: Text, r: Option<Text>): Option<Text> {
    match r
    case None => None
    case Some(u) => Some(t + u)
  }

  /** parse_string: the C string it leaves in the item, and the offset after the closing quote. */
  function ParseString(c: Text, off: nat): (r: Parsed<Text>)
    requires off < |c|
    ensures r.Ok? ==> off < r.next <= |c| && NulFree(r.value)
  {
    if c[off] != QUOTE then Fail
    else match ScanEnd(c, off + 1)
         case Fail => Fail
         case Ok(end, _) =>
           match Decode(c, off + 1, end)
           case None => Fail
           case Some(t) => Ok(CString(t), end + 1)
  }

  // ---- values ----

  predicate HasPrefix(c: Text, off: nat, t: Text) {
    off + |t| <= |c| && c[off..off + |t|] == t
  }

  function ParseValue(c: Text, off: nat, depth: nat): (r: Parsed<Value>)
    requires off <= |c|
    ensures r.Ok? ==> off < r.next <= |c|
    decreases |c| - off, 2
  {
    if HasPrefix(c, off, NULL_TEXT) then Ok(Null, off + 4)
    else if HasPrefix(c, off, FALSE_TEXT) then Ok(Bool(false), off + 5)
    else if HasPrefix(c, off, TRUE_TEXT) then Ok(Bool(true), off + 4)
    else if off >= |c| then Fail
    else if c[off] == QUOTE then
      match ParseString(c, off)
      case Fail => Fail
      case Ok(s, n) => Ok(String(s), n)
    else if c[off] == 45 || IsDigit(c[off]) then ParseNumber(c, off)
    else if c[off] == LBRACKET then ParseArray(c, off, depth)
    else if c[off] == LBRACE then ParseObject(c, off, depth)
    else Fail
  }

  function ParseArray(c: Text, off: nat, depth: nat): (r: Parsed<Value>)
    requires off < |c|
    ensures r.Ok? ==> off < r.next <= |c|
    decreases |c| - off, 1
  {
    if depth >= NESTING_LIMIT || c[off] != LBRACKET then Fail
    else
      var o := SkipWs(c, off + 1);
      if o >= |c| then Fail
      else if c[o] == RBRACKET then Ok(Array([]), o + 1)
      else match ParseElements(c, o - 1, depth + 1)
           case Fail => Fail
           case Ok(vs, n) => Ok(Array(vs), n)
  }

  /** The do-while loop of parse_array from the byte before an element up to the closing bracket. */
  function ParseElements(c: Text, at: nat, depth: nat): (r: Parsed<seq<Value>>)
    requires at < |c|
    ensures r.Ok? ==> at < r.next <= |c|
    decreases |c| - at, 0
  {
    match ParseValue(c, SkipWs(c, at + 1), depth)
    case Fail => Fail
    case Ok(v, n) =>
      var o := SkipWs(c, n);
      if o >= |c| then Fail
      else if c[o] == COMMA then
        match ParseElements(c, o, depth)
        case Fail => Fail
        case Ok(vs, m) => Ok([v] + vs, m)
      else if c[o] == RBRACKET then Ok([v], o + 1)
      else Fail
  }

  function ParseObject(c: Text, off: nat, depth: nat): (r: Parsed<Value>)
    requires off < |c|
    ensures r.Ok? ==> off < r.next <= |c|
    decreases |c| - off, 1
  {
    if depth >= NESTING_LIMIT || c[off] != LBRACE then Fail
    else
      var o := SkipWs(c, off + 1);
      if o >= |c| then Fail
      else if c[o] == RBRACE then Ok(Object([]), o + 1)
      else match ParseMembers(c, o - 1, depth + 1)
           case Fail => Fail
           case Ok(ms, n) => Ok(Object(ms), n)
  }

  /** Key, colon and value from the byte before the key. */
  function ParseMember(c: Text, at: nat, depth: nat): (r: Parsed<Member>)
    requires at < |c|
    ensures r.Ok? ==> at < r.next <= |c|
    decreases |c| - at, 0, 0
  {
    if at + 1 >= |c| then Fail
    else match ParseString(c, SkipWs(c, at + 1))
         case Fail => Fail
         case Ok(key, n) =>
           var o := SkipWs(c, n);
           if o >= |c| || c[o] != COLON then Fail
           else match ParseValue(c, SkipWs(c, o + 1), depth)
                case Fail => Fail
                case Ok(v, m) => Ok(Member(key, v), m)
  }

  function ParseMembers(c: Text, at: nat, depth: nat): (r: Parsed<seq<Member>>)
    requires at < |c|
    ensures r.Ok? ==> at < r.next <= |c|
    decreases |c| - at, 0, 1
  {
    match ParseMember(c, at, depth)
    case Fail => Fail
    case Ok(m, n) =>
      var o := SkipWs(c, n);
      if o >= |c| then Fail
      else if c[o] == COMMA then
        match ParseMembers(c, o, depth)
        case Fail => Fail
        case Ok(ms, k) => Ok([m] + ms, k)
      else if c[o] == RBRACE then Ok([m], o + 1)
      else Fail
  }

  // ---- entry points ----

  const BOM: Text := [0xEF, 0xBB, 0xBF]

  function SkipBom(c: Text): (r: nat)
    ensures r <= |c|
  {
    if |c| > 4 && c[..3] == BOM then 3 else 0
  }

  /** cJSON_ParseWithLengthOpts: root value and end of the parsed text. */
  function ParseBuffer(c: Text, requireNul: bool): (r: Parsed<Value>)
    ensures r.Ok? ==> r.next <= |c|
  {
    match ParseValue(c, SkipWs(c, SkipBom(c)), 0)
    case Fail => Fail
    case Ok(v, n) =>
      if !requireNul then Ok(v, n)
      else
        var o := SkipWs(c, n);
        if o >= |c| || c[o] != 0 then Fail else Ok(v, o)
  }

  /** cJSON_Parse on memory holding `mem`: the buffer is the C string and its terminator. */
  function Parse(mem: Text): (r: Parsed<Value>) {
    ParseBuffer(CString(mem) + [0], false)
  }
}
