/** JSON values as the item tree of cJSON holds them, and their printed text. */
module JsonValue {
  import opened Bytes

  datatype Value =
    | Null
    | Bool(b: bool)
    | Number(d: real)              // valuedouble; valueint is ValueInt(d)
    | String(s: Text)
    | Array(items: seq<Value>)
    | Object(members: seq<Member>)

  datatype Member = Member(key: Text, value: Value)

  const INT_MAX := 0x7fff_ffff
  const INT_MIN := -0x8000_0000

  /** The C conversion to int: truncation toward zero, saturated at the ends. */
  function ValueInt(d: real): (n: int)
    ensures INT_MIN <= n <= INT_MAX
    ensures INT_MIN as real <= d <= INT_MAX as real && d.Floor as real == d ==> n == d.Floor
  {
    if d >= INT_MAX as real then INT_MAX
    else if d <= INT_MIN as real then INT_MIN
    else if d >= 0.0 then d.Floor
    else -(-d).Floor
  }

  /** It is the number without its fraction inside the range, and the nearer end outside of it. */
  lemma ValueIntTruncates(d: real)
    ensures INT_MIN as real <= d <= INT_MAX as real ==>
              var n := ValueInt(d) as real;
              if d >= 0.0 then 0.0 <= n <= d < n + 1.0 else n - 1.0 < d <= n <= 0.0
    ensures d > INT_MAX as real ==> ValueInt(d) == 2147483647
    ensures d < INT_MIN as real ==> ValueInt(d) == -2147483648
  {
    var up, down := d.Floor as real, (-d).Floor as real;
    assert up <= d < up + 1.0 && down <= -d < down + 1.0;
  }

  /** The numbers that the printer writes with "%d". */
  predicate IsInt(d: real) {
    d == ValueInt(d) as real
  }

  /** Values inside the printer model: integer numbers and NUL-free strings. */
  ghost predicate Printable(v: Value) {
    match v
    case Number(d) => IsInt(d)
    case String(s) => NulFree(s)
    case Array(items) => forall i :: 0 <= i < |items| ==> Printable(items[i])
    case Object(ms) => forall i :: 0 <= i < |ms| ==> NulFree(ms[i].key) && Printable(ms[i].value)
    case _ => true
  }

  /** All numbers are 32-bit integers. */
  ghost predicate IntNumbers(v: Value) {
    match v
    case Number(d) => IsInt(d)
    case Array(items) => forall i :: 0 <= i < |items| ==> IntNumbers(items[i])
    case Object(ms) => forall i :: 0 <= i < |ms| ==> IntNumbers(ms[i].value)
    case _ => true
  }

  function Max(a: nat, b: nat): nat { if a < b then b else a }

  /** Levels of arrays and objects on the deepest path. */
  function Nesting(v: Value): nat {
    match v
    case Array(items) => 1 + NestingOfItems(items)
    case Object(ms) => 1 + NestingOfMembers(ms)
    case _ => 0
  }

  function NestingOfItems(items: seq<Value>): nat {
    if items == [] then 0 else Max(Nesting(items[0]), NestingOfItems(items[1..]))
  }

  function NestingOfMembers(ms: seq<Member>): nat {
    if ms == [] then 0 else Max(Nesting(ms[0].value), NestingOfMembers(ms[1..]))
  }

  // ---- text ----

  const QUOTE: Byte := 34
  const COMMA: Byte := 44
  const COLON: Byte := 58
  const LBRACKET: Byte := 91
  const BACKSLASH: Byte := 92
  const RBRACKET: Byte := 93
  const LBRACE: Byte := 123
  const RBRACE: Byte := 125
  const TAB: Byte := 9
  const NEWLINE: Byte := 10
  const SPACE: Byte := 32

  const NULL_TEXT: Text := [110, 117, 108, 108]
  const TRUE_TEXT: Text := [116, 114, 117, 101]
  const FALSE_TEXT: Text := [102, 97, 108, 115, 101]

  function HexDigit(n: nat): Byte
    requires n < 16
  {
    if n < 10 then 48 + n else 87 + n
  }

  function EscapeByte(b: Byte): (t: Text)
    ensures 1 <= |t| <= 6
    ensures b != 0 ==> NulFree(t)
  {
    if b == QUOTE then [BACKSLASH, QUOTE]
    else if b == BACKSLASH then [BACKSLASH, BACKSLASH]
    else if b == 8 then [BACKSLASH, 98]
    else if b == 12 then [BACKSLASH, 102]
    else if b == 10 then [BACKSLASH, 110]
    else if b == 13 then [BACKSLASH, 114]
    else if b == 9 then [BACKSLASH, 116]
    else if b < 32 then [BACKSLASH, 117, 48, 48, HexDigit(b / 16), HexDigit(b % 16)]
    else [b]
  }

  function Escape(s: Text): Text {
    if s == [] then [] else EscapeByte(s[0]) + Escape(s[1..])
  }

  function StringText(s: Text): Text {
    [QUOTE] + Escape(s) + [QUOTE]
  }

  function NatText(n: nat): (t: Text)
    ensures |t| >= 1
    ensures forall i :: 0 <= i < |t| ==> 48 <= t[i] <= 57
  {
    if n < 10 then [48 + n] else NatText(n / 10) + [48 + n % 10]
  }

  /** "%d" */
  function IntText(n: int): (t: Text)
    ensures |t| >= 1
  {
    if n < 0 then [45] + NatText(-n) else NatText(n)
  }

  function Tabs(n: nat): Text {
    seq(n, i => TAB)
  }

  function Opening(format: bool): (t: Text)
    ensures |t| == if format then 2 else 1
  {
    if format then [LBRACE, NEWLINE] else [LBRACE]
  }

  function Closing(format: bool, depth: nat): (t: Text)
    ensures |t| == if format then depth + 1 else 1
  {
    if format then Tabs(depth) + [RBRACE] else [RBRACE]
  }

  /** The text of `v` when `depth` arrays and objects are already open. */
  function ValueText(v: Value, format: bool, depth: nat): Text
    decreases v, 1
  {
    match v
    case Null => NULL_TEXT
    case Bool(b) => if b then TRUE_TEXT else FALSE_TEXT
    case Number(d) => IntText(ValueInt(d))
    case String(s) => StringText(s)
    case Array(items) => [LBRACKET] + ItemsText(items, format, depth + 1) + [RBRACKET]
    case Object(ms) =>
      Opening(format)
      + MembersText(ms, format, depth + 1)
      + Closing(format, depth)
  }

  lemma ObjectTextUnfold(ms: seq<Member>, format: bool, depth: nat)
    ensures ValueText(Object(ms), format, depth)
         == Opening(format) + MembersText(ms, format, depth + 1) + Closing(format, depth)
  {
    hide MembersText;
  }

  function ItemsText(items: seq<Value>, format: bool, depth: nat): Text
    decreases items, 0
  {
    if items == [] then []
    else ValueText(items[0], format, depth) + ItemSeparator(items, format)
         + ItemsText(items[1..], format, depth)
  }

  function ItemSeparator(items: seq<Value>, format: bool): Text {
    if |items| <= 1 then [] else if format then [COMMA, SPACE] else [COMMA]
  }

  function MembersText(ms: seq<Member>, format: bool, depth: nat): Text
    decreases ms, 0
  {
    if ms == [] then []
    else MemberPrefix(ms[0].key, format, depth)
         + ValueText(ms[0].value, format, depth)
         + MemberSuffix(ms, format)
         + MembersText(ms[1..], format, depth)
  }

  function MemberPrefix(key: Text, format: bool, depth: nat): Text {
    (if format then Tabs(depth) else []) + StringText(key)
    + (if format then [COLON, TAB] else [COLON])
  }

  function MemberSuffix(ms: seq<Member>, format: bool): Text {
    (if |ms| <= 1 then [] else [COMMA]) + (if format then [NEWLINE] else [])
  }
}
