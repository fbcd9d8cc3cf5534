/** The texts that the parser reads: every JSON text within the nesting limit is parsed to what it means,
    and only such texts are accepted (RFC 8259, and what cJSON.c takes beyond it). */
module JsonGrammar {
  import opened Bytes
  import opened JsonValue
  import opened JsonParser
  import opened JsonStrings
  import opened JsonTokens

  // ---- documents ----

  /** A text by its parts: every blank, every digit and every spelling that it holds. */
  datatype Doc =
    | NullDoc
    | BoolDoc(b: bool)
    | NumberDoc(n: Numeral)
    | StringDoc(t: Text, s: Text)                   // as it is spelled, and what it stands for
    | ArrayDoc(blank: Text, items: seq<Element>)    // the blank of an empty one
    | ObjectDoc(blank: Text, pairs: seq<Pair>)

  datatype Element = Element(before: Text, doc: Doc, after: Text)

  /** A key, the blanks around it, and the value. */
  datatype Pair = Pair(before: Text, t: Text, key: Text, colon: Text, value: Element)

  /** A run of bytes that the parser skips. */
  ghost predicate Blank(ws: Text) {
    forall i :: 0 <= i < |ws| ==> ws[i] <= 32
  }

  function Quoted(t: Text): Text {
    ['\"' as int] + (t + ['\"' as int])
  }

  function TextOf(d: Doc): Text
    decreases d, 1
  {
    match d
    case NullDoc => Ascii("null")
    case BoolDoc(b) => Ascii(if b then "true" else "false")
    case NumberDoc(n) => NumeralText(n)
    case StringDoc(t, _) => Quoted(t)
    case ArrayDoc(blank, items) =>
      ['[' as int] + if items == [] then blank + [']' as int] else items[0].before + ItemsFrom(items)
    case ObjectDoc(blank, pairs) =>
      ['{' as int] + if pairs == [] then blank + ['}' as int] else pairs[0].before + PairsFrom(pairs)
  }

  /** From the first item, its blank left out, to the closing bracket. */
  function ItemsFrom(es: seq<Element>): Text
    requires es != []
    decreases es, 0
  {
    TextOf(es[0].doc) + (es[0].after
    + if |es| == 1 then [']' as int] else [',' as int] + (es[1].before + ItemsFrom(es[1..])))
  }

  function PairsFrom(ps: seq<Pair>): Text
    requires ps != []
    decreases ps, 0
  {
    var e := ps[0].value;
    KeyUpTo(ps[0]) + (TextOf(e.doc) + (e.after
    + if |ps| == 1 then ['}' as int] else [',' as int] + (ps[1].before + PairsFrom(ps[1..]))))
  }

  /** A key, its colon and the blanks up to the value. */
  function KeyUpTo(p: Pair): Text {
    Quoted(p.t) + (p.colon + ([':' as int] + p.value.before))
  }

  /** The value that it stands for. */
  function ValueOf(d: Doc): Value
    decreases d, 1
  {
    match d
    case NullDoc => Null
    case BoolDoc(b) => Bool(b)
    case NumberDoc(n) => Number(NumberOf(n))
    case StringDoc(_, s) => String(s)
    case ArrayDoc(_, items) => Array(ValuesOf(items))
    case ObjectDoc(_, pairs) => Object(MembersOf(pairs))
  }

  function ValuesOf(es: seq<Element>): (vs: seq<Value>)
    ensures |vs| == |es|
    decreases es, 0
  {
    if es == [] then [] else [ValueOf(es[0].doc)] + ValuesOf(es[1..])
  }

  function MembersOf(ps: seq<Pair>): (ms: seq<Member>)
    ensures |ms| == |ps|
    decreases ps, 0
  {
    if ps == [] then [] else [Member(ps[0].key, ValueOf(ps[0].value.doc))] + MembersOf(ps[1..])
  }

  /** A literal of the standard or, when `lenient`, one that a wrong escape ends. */
  ghost predicate IsLiteral(t: Text, s: Text, lenient: bool) {
    Proper(t, s) || (lenient && Broken(t, s))
  }

  ghost predicate IsDoc(d: Doc, lenient: bool)
    decreases d, 1
  {
    match d
    case NumberDoc(n) => IsNumeral(n)
    case StringDoc(t, s) => IsLiteral(t, s, lenient)
    case ArrayDoc(blank, items) => Blank(blank) && AreItems(items, lenient)
    case ObjectDoc(blank, pairs) => Blank(blank) && ArePairs(pairs, lenient)
    case _ => true
  }

  ghost predicate IsElement(e: Element, lenient: bool)
    decreases e, 2
  {
    Blank(e.before) && Blank(e.after) && IsDoc(e.doc, lenient)
  }

  ghost predicate AreItems(es: seq<Element>, lenient: bool)
    decreases es, 0
  {
    es == [] || (IsElement(es[0], lenient) && AreItems(es[1..], lenient))
  }

  ghost predicate ArePairs(ps: seq<Pair>, lenient: bool)
    decreases ps, 0
  {
    ps == []
    || (Blank(ps[0].before) && IsLiteral(ps[0].t, ps[0].key, lenient) && Blank(ps[0].colon)
        && IsElement(ps[0].value, lenient) && ArePairs(ps[1..], lenient))
  }

  // ---- every document is read ----

  lemma {:induction false} WsEndOver(c: Text, i: nat, k: nat)
    requires i <= k < |c| && c[k] > 32
    requires forall j :: i <= j < k ==> c[j] <= 32
    ensures WsEnd(c, i) == k
    decreases k - i
  {
    if i < k { WsEndOver(c, i + 1, k); }
  }

  lemma SkipOver(c: Text, off: nat, ws: Text)
    requires At(c, off, ws) && Blank(ws) && off + |ws| < |c| && c[off + |ws|] > 32
    ensures SkipWs(c, off) == off + |ws|
  {
    forall j | off <= j < off + |ws| ensures c[j] <= 32 { AtByte(c, off, ws, j - off); }
    WsEndOver(c, off, off + |ws|);
  }

  /** What a parse at `depth` makes of something with that nesting: the result, if the limit allows it. */
  function Limited<T>(depth: nat, nesting: nat, r: Parsed<T>): Parsed<T> {
    if depth + nesting <= NESTING_LIMIT then r else Fail
  }

  lemma {:induction false} NumberRunStops(c: Text, i: nat, end: nat)
    requires i <= end <= |c|
    requires forall k :: i <= k < end ==> IsNumberByte(c[k])
    requires end < |c| ==> !IsNumberByte(c[end])
    ensures NumberRunEnd(c, i) == end
    decreases end - i
  {
    if i < end { NumberRunStops(c, i + 1, end); }
  }

  /** What stands after a number decides where strtod stops. */
  ghost predicate NumberEndsAt(c: Text, end: nat) {
    end < |c| ==> !IsNumberByte(c[end])
  }

  lemma NotALiteral(c: Text, off: nat)
    requires off < |c|
    ensures c[off] != 110 ==> !HasPrefix(c, off, NULL_TEXT)
    ensures c[off] != 102 ==> !HasPrefix(c, off, FALSE_TEXT)
    ensures c[off] != 116 ==> !HasPrefix(c, off, TRUE_TEXT)
  {
    if off + 4 <= |c| { assert c[off..off + 4][0] == c[off]; }
    if off + 5 <= |c| { assert c[off..off + 5][0] == c[off]; }
  }

  lemma {:induction false} NumeralBytes(n: Numeral)
    ensures forall k :: 0 <= k < |NumeralText(n)| ==> IsNumberByte(NumeralText(n)[k])
  {
    assert forall k :: 0 <= k < |DigitText(n.whole)| ==> IsDigit(DigitText(n.whole)[k]);
    assert forall k :: 0 <= k < |DigitText(n.frac)| ==> IsDigit(DigitText(n.frac)[k]);
    if n.exponent.Some? {
      var ds := n.exponent.value.digits;
      assert forall k :: 0 <= k < |DigitText(ds)| ==> IsDigit(DigitText(ds)[k]);
    }
    hide DigitText;
  }

  lemma NumberIsRead(c: Text, off: nat, n: Numeral)
    requires IsNumeral(n) && At(c, off, NumeralText(n)) && NumberEndsAt(c, off + |NumeralText(n)|)
    ensures ParseNumber(c, off) == Ok(Number(NumberOf(n)), off + |NumeralText(n)|)
  {
    hide Strtod, NumeralText, NumberRunEnd, NumberOf, IsNumeral, IsNumberByte;
    var t := NumeralText(n);
    NumeralBytes(n);
    forall k | off <= k < off + |t| ensures IsNumberByte(c[k]) { AtByte(c, off, t, k - off); }
    NumberRunStops(c, off, off + |t|);
    NumeralIsRead(n);
  }

  lemma LiteralIsRead(c: Text, off: nat, t: Text, s: Text)
    requires Proper(t, s) && At(c, off, Quoted(t))
    ensures ParseString(c, off) == Ok(s, off + |Quoted(t)|)
  {
    var xs :| Spelled(t, xs, s);
    assert Quoted(t) == [QUOTE] + t + [QUOTE];
    hide At;
    UnicodeEscapes(c, off, t, xs);
  }

  /** The first byte of a document tells its kind. */
  lemma DocStarts(d: Doc)
    requires IsDoc(d, false)
    ensures TextOf(d) != [] && TextOf(d)[0] > 32 && TextOf(d)[0] != RBRACKET && TextOf(d)[0] != RBRACE
    ensures var b := TextOf(d)[0];
            match d
            case NullDoc => TextOf(d) == NULL_TEXT
            case BoolDoc(t) => TextOf(d) == if t then TRUE_TEXT else FALSE_TEXT
            case NumberDoc(_) => b == 45 || IsDigit(b)
            case StringDoc(_, _) => b == QUOTE
            case ArrayDoc(_, _) => b == LBRACKET
            case ObjectDoc(_, _) => b == LBRACE
  {
    hide ItemsFrom, PairsFrom, NumeralText;
    if d.NumberDoc? { NumeralStarts(d.n); }
  }

  /** parse_value dispatches on it. */
  lemma Dispatched(c: Text, off: nat, d: Doc, depth: nat)
    requires IsDoc(d, false) && At(c, off, TextOf(d))
    ensures off < |c| && c[off] == TextOf(d)[0] > 32
    ensures match d
            case NullDoc => ParseValue(c, off, depth) == Ok(Null, off + |TextOf(d)|)
            case BoolDoc(b) => ParseValue(c, off, depth) == Ok(Bool(b), off + |TextOf(d)|)
            case NumberDoc(_) => ParseValue(c, off, depth) == ParseNumber(c, off)
            case StringDoc(_, _) =>
              ParseString(c, off).Ok? ==>
                ParseValue(c, off, depth) == Ok(String(ParseString(c, off).value), ParseString(c, off).next)
            case ArrayDoc(_, _) => ParseValue(c, off, depth) == ParseArray(c, off, depth)
            case ObjectDoc(_, _) => ParseValue(c, off, depth) == ParseObject(c, off, depth)
  {
    DocStarts(d);
    AtByte(c, off, TextOf(d), 0);
    NotALiteral(c, off);
    hide TextOf, ParseNumber, ParseString, ParseArray, ParseObject;
    if !d.NullDoc? && !d.BoolDoc? { hide HasPrefix, At; }
  }

  function Then<T>(v: T, r: Parsed<seq<T>>): Parsed<seq<T>> {
    match r
    case Fail => Fail
    case Ok(vs, m) => Ok([v] + vs, m)
  }

  /** One turn of the loop over items: a value, white space, and a comma or the closing bracket. */
  lemma ItemsTurn(c: Text, at: nat, depth: nat, off: nat)
    requires at < |c| && SkipWs(c, at + 1) == off
    ensures ParseValue(c, off, depth).Fail? ==> ParseElements(c, at, depth).Fail?
    ensures ParseValue(c, off, depth).Ok? ==>
              var v, n := ParseValue(c, off, depth).value, ParseValue(c, off, depth).next;
              var o := SkipWs(c, n);
              ParseElements(c, at, depth)
              == if o >= |c| then Fail
                 else if c[o] == COMMA then Then(v, ParseElements(c, o, depth))
                 else if c[o] == RBRACKET then Ok([v], o + 1)
                 else Fail
  {
    hide ParseValue, SkipWs;
  }

  lemma PairsTurn(c: Text, at: nat, depth: nat)
    requires at < |c|
    ensures ParseMember(c, at, depth).Fail? ==> ParseMembers(c, at, depth).Fail?
    ensures ParseMember(c, at, depth).Ok? ==>
              var m, n := ParseMember(c, at, depth).value, ParseMember(c, at, depth).next;
              var o := SkipWs(c, n);
              ParseMembers(c, at, depth)
              == if o >= |c| then Fail
                 else if c[o] == COMMA then Then(m, ParseMembers(c, o, depth))
                 else if c[o] == RBRACE then Ok([m], o + 1)
                 else Fail
  {
    hide ParseMember, SkipWs;
  }

  /** The nesting limit over a first value and the rest. */
  lemma LimitedThen<T>(v: T, vs: seq<T>, depth: nat, a: nat, b: nat, end: nat)
    requires depth + a <= NESTING_LIMIT
    ensures Then(v, Limited(depth, b, Ok(vs, end))) == Limited(depth, Max(a, b), Ok([v] + vs, end))
  {
  }

  /** A blank and a token behind it. */
  lemma BeforeToken(c: Text, p: nat, blank: Text, t: Text)
    requires At(c, p, blank + t) && Blank(blank) && t != [] && t[0] > 32
    ensures At(c, p + |blank|, t) && p + |blank| < |c| && c[p + |blank|] == t[0] && SkipWs(c, p) == p + |blank|
  {
    AtSplit(c, p, blank, t);
    AtByte(c, p + |blank|, t, 0);
    SkipOver(c, p, blank);
  }

  /** A value, a blank and the byte that ends it. */
  lemma AfterValue(c: Text, off: nat, d: Text, after: Text, t: Text)
    requires At(c, off, d + (after + t)) && Blank(after) && t != [] && t[0] > 32 && !IsNumberByte(t[0])
    ensures var n := off + |d|;
            && At(c, off, d) && NumberEndsAt(c, n) && SkipWs(c, n) == n + |after| < |c| && c[n + |after|] == t[0]
            && At(c, n + |after|, t)
  {
    AtSplit(c, off, d, after + t);
    BeforeToken(c, off + |d|, after, t);
    if after != [] { AtByte(c, off + |d|, after + t, 0); }
  }

  lemma ItemsStart(es: seq<Element>)
    requires es != [] && AreItems(es, false)
    ensures ItemsFrom(es) != [] && ItemsFrom(es)[0] > 32 && ItemsFrom(es)[0] != RBRACKET
  {
    DocStarts(es[0].doc);
    hide TextOf, IsDoc;
  }

  /** What stands behind the closing byte of the first item. */
  function Behind(es: seq<Element>): Text
    requires es != []
  {
    if |es| == 1 then [']' as int] else [',' as int] + (es[1].before + ItemsFrom(es[1..]))
  }

  lemma ItemsParts(es: seq<Element>)
    requires es != []
    ensures ItemsFrom(es) == TextOf(es[0].doc) + (es[0].after + Behind(es))
    ensures AreItems(es, false) ==> IsElement(es[0], false) && AreItems(es[1..], false)
    ensures ValuesOf(es) == [ValueOf(es[0].doc)] + ValuesOf(es[1..])
    ensures NestingOfItems(ValuesOf(es)) == Max(Nesting(ValueOf(es[0].doc)), NestingOfItems(ValuesOf(es[1..])))
    ensures |es| == 1 ==> ValuesOf(es[1..]) == []
  {
    hide TextOf, IsElement, ValueOf, Nesting;
    assert ([ValueOf(es[0].doc)] + ValuesOf(es[1..]))[1..] == ValuesOf(es[1..]);
  }

  lemma BehindMore(es: seq<Element>)
    requires |es| > 1
    ensures Behind(es) == [',' as int] + (es[1].before + ItemsFrom(es[1..]))
  {
    hide ItemsFrom;
  }

  lemma ItemBehind(c: Text, o: nat, es: seq<Element>)
    requires |es| > 1 && At(c, o, Behind(es)) && AreItems(es[1..], false) && Blank(es[1].before)
    ensures var q := o + 1 + |es[1].before|;
            && SkipWs(c, o + 1) == q && At(c, q, ItemsFrom(es[1..]))
            && q + |ItemsFrom(es[1..])| == o + |Behind(es)|
  {
    hide ItemsFrom, At, Behind, SkipWs, Blank, AreItems;
    ItemsStart(es[1..]);
    BehindMore(es);
    AtSplit(c, o, [',' as int], es[1].before + ItemsFrom(es[1..]));
    BeforeToken(c, o + 1, es[1].before, ItemsFrom(es[1..]));
  }

  lemma {:induction false} ItemsAreRead(c: Text, at: nat, off: nat, es: seq<Element>, depth: nat)
    requires es != [] && AreItems(es, false) && depth <= NESTING_LIMIT && at < |c| && SkipWs(c, at + 1) == off
    requires At(c, off, ItemsFrom(es))
    ensures ParseElements(c, at, depth)
         == Limited(depth, NestingOfItems(ValuesOf(es)), Ok(ValuesOf(es), off + |ItemsFrom(es)|))
    decreases es, 0
  {
    hide ParseElements, ParseValue, At, ItemsFrom, TextOf, AreItems, SkipWs, Blank, ValuesOf, ValueOf, Nesting,
         NestingOfItems, IsDoc, NumberEndsAt, Then, Behind;
    var d, v := es[0].doc, ValueOf(es[0].doc);
    var o := off + |TextOf(d)| + |es[0].after|;
    ItemsParts(es);
    BehindStarts(es);
    AfterValue(c, off, TextOf(d), es[0].after, Behind(es));
    DocIsRead(c, off, d, depth);
    ItemsTurn(c, at, depth, off);
    if depth + Nesting(v) <= NESTING_LIMIT && |es| > 1 {
      ItemsParts(es[1..]);
      ItemBehind(c, o, es);
      ItemsAreRead(c, o, o + 1 + |es[1].before|, es[1..], depth);
      LimitedThen(v, ValuesOf(es[1..]), depth, Nesting(v), NestingOfItems(ValuesOf(es[1..])), off + |ItemsFrom(es)|);
    } else if |es| == 1 {
      NothingNested();
      assert [v] + [] == [v];
    }
  }

  lemma NothingNested()
    ensures NestingOfItems([]) == 0 && NestingOfMembers([]) == 0
  {
  }

  lemma BehindStarts(es: seq<Element>)
    requires es != []
    ensures Behind(es) != [] && Behind(es)[0] == if |es| == 1 then RBRACKET else COMMA
    ensures |es| == 1 ==> |Behind(es)| == 1
  {
    hide ItemsFrom;
  }

  lemma {:induction false} DocIsRead(c: Text, off: nat, d: Doc, depth: nat)
    requires IsDoc(d, false) && depth <= NESTING_LIMIT && At(c, off, TextOf(d))
    requires d.NumberDoc? ==> NumberEndsAt(c, off + |TextOf(d)|)
    ensures ParseValue(c, off, depth) == Limited(depth, Nesting(ValueOf(d)), Ok(ValueOf(d), off + |TextOf(d)|))
    decreases d, 1
  {
    hide ParseValue, ParseNumber, ParseString, ParseArray, ParseObject, At, Proper, NumeralText, NumberOf, ItemsFrom,
         PairsFrom, AreItems, ArePairs;
    Dispatched(c, off, d, depth);
    match d
    case NullDoc =>
    case BoolDoc(_) =>
    case NumberDoc(n) => NumberIsRead(c, off, n);
    case StringDoc(t, s) => LiteralIsRead(c, off, t, s);
    case ArrayDoc(blank, items) =>
      if items == [] { EmptyArray(c, off, d, depth); } else { ArrayIsRead(c, off, d, depth); }
    case ObjectDoc(blank, pairs) =>
      if pairs == [] { EmptyObject(c, off, d, depth); } else { ObjectIsRead(c, off, d, depth); }
  }

  lemma EmptyArray(c: Text, off: nat, d: Doc, depth: nat)
    requires d.ArrayDoc? && d.items == [] && IsDoc(d, false) && At(c, off, TextOf(d)) && off < |c|
    requires depth <= NESTING_LIMIT
    ensures ParseArray(c, off, depth) == Limited(depth, 1, Ok(Array([]), off + |TextOf(d)|))
  {
    hide At, SkipWs;
    AtByte(c, off, TextOf(d), 0);
    AtSplit(c, off, ['[' as int], d.blank + [']' as int]);
    BeforeToken(c, off + 1, d.blank, [']' as int]);
  }

  lemma {:induction false} ArrayIsRead(c: Text, off: nat, d: Doc, depth: nat)
    requires d.ArrayDoc? && d.items != [] && IsDoc(d, false) && At(c, off, TextOf(d)) && off < |c|
    requires depth <= NESTING_LIMIT
    ensures ParseArray(c, off, depth) == Limited(depth, Nesting(ValueOf(d)), Ok(ValueOf(d), off + |TextOf(d)|))
    decreases d, 0
  {
    hide TextOf, IsDoc, ValueOf, Nesting, At, SkipWs, ParseElements, ParseArray, ItemsFrom, AreItems, ValuesOf,
         NestingOfItems, Blank, IsElement;
    var es := d.items;
    var o := off + 1 + |es[0].before|;
    ArrayIs(d);
    ItemsStart(es);
    AtSplit(c, off, ['[' as int], es[0].before + ItemsFrom(es));
    AtByte(c, off, ['[' as int], 0);
    BeforeToken(c, off + 1, es[0].before, ItemsFrom(es));
    SkipsFrom(c, o);
    ArrayTurn(c, off, o, depth);
    if depth < NESTING_LIMIT { ItemsAreRead(c, o - 1, o, es, depth + 1); }
  }

  lemma ArrayIs(d: Doc)
    requires d.ArrayDoc? && d.items != [] && IsDoc(d, false)
    ensures TextOf(d) == ['[' as int] + (d.items[0].before + ItemsFrom(d.items)) && Blank(d.items[0].before)
    ensures AreItems(d.items, false) && ValueOf(d) == Array(ValuesOf(d.items))
    ensures Nesting(ValueOf(d)) == 1 + NestingOfItems(ValuesOf(d.items))
  {
    hide ItemsFrom, NestingOfItems, ValuesOf, Blank;
    assert IsElement(d.items[0], false);
  }

  lemma SkipsFrom(c: Text, o: nat)
    requires 0 < o < |c| && c[o] > 32
    ensures SkipWs(c, o - 1 + 1) == o
  {
  }

  lemma ArrayTurn(c: Text, off: nat, o: nat, depth: nat)
    requires off < o < |c| && c[off] == LBRACKET && SkipWs(c, off + 1) == o && c[o] != RBRACKET
    ensures ParseArray(c, off, depth) == if depth >= NESTING_LIMIT then Fail
                                         else match ParseElements(c, o - 1, depth + 1)
                                              case Fail => Fail
                                              case Ok(vs, n) => Ok(Array(vs), n)
  {
    hide ParseElements, SkipWs;
  }

  // ---- objects ----

  lemma KeyIsRead(c: Text, at: nat, k: nat, p: Pair, rest: Text, depth: nat)
    requires at < |c| && SkipWs(c, at + 1) == k && At(c, k, KeyUpTo(p) + rest) && rest != [] && rest[0] > 32
    requires Proper(p.t, p.key) && Blank(p.colon) && Blank(p.value.before)
    ensures var off := k + |KeyUpTo(p)|;
            && At(c, off, rest)
            && ParseMember(c, at, depth) == match ParseValue(c, off, depth)
                                            case Fail => Fail
                                            case Ok(v, n) => Ok(Member(p.key, v), n)
  {
    hide At, SkipWs, ParseString, ParseValue, ParseMember, Proper, Blank, Quoted, KeyUpTo;
    var o := k + |Quoted(p.t)| + |p.colon|;
    var blank := p.value.before;
    KeyThen(p, rest);
    AtSplit(c, k, Quoted(p.t), p.colon + ([':' as int] + (blank + rest)));
    LiteralIsRead(c, k, p.t, p.key);
    BeforeToken(c, k + |Quoted(p.t)|, p.colon, [':' as int] + (blank + rest));
    AtSplit(c, o, [':' as int], blank + rest);
    BeforeToken(c, o + 1, blank, rest);
    KeyTurn(c, at, k, p.key, k + |Quoted(p.t)|, o, depth);
  }

  lemma KeyThen(p: Pair, rest: Text)
    ensures KeyUpTo(p) + rest == Quoted(p.t) + (p.colon + ([':' as int] + (p.value.before + rest)))
    ensures |KeyUpTo(p)| == |Quoted(p.t)| + |p.colon| + 1 + |p.value.before|
  {
    hide Quoted;
  }

  lemma KeyTurn(c: Text, at: nat, k: nat, key: Text, n: nat, o: nat, depth: nat)
    requires at < |c| && SkipWs(c, at + 1) == k < |c| && ParseString(c, k) == Ok(key, n) && n <= |c|
    requires SkipWs(c, n) == o < |c| && c[o] == COLON
    ensures ParseMember(c, at, depth) == match ParseValue(c, SkipWs(c, o + 1), depth)
                                         case Fail => Fail
                                         case Ok(v, m) => Ok(Member(key, v), m)
  {
    hide ParseValue, ParseString, SkipWs;
  }

  function PairsBehind(ps: seq<Pair>): Text
    requires ps != []
  {
    if |ps| == 1 then ['}' as int] else [',' as int] + (ps[1].before + PairsFrom(ps[1..]))
  }

  lemma PairsBehindStarts(ps: seq<Pair>)
    requires ps != []
    ensures PairsBehind(ps) != [] && PairsBehind(ps)[0] == if |ps| == 1 then RBRACE else COMMA
    ensures |ps| == 1 ==> |PairsBehind(ps)| == 1
  {
    hide PairsFrom;
  }

  ghost predicate IsPair(p: Pair, lenient: bool) {
    Blank(p.before) && IsLiteral(p.t, p.key, lenient) && Blank(p.colon) && IsElement(p.value, lenient)
  }

  lemma PairsParts(ps: seq<Pair>)
    requires ps != []
    ensures PairsFrom(ps) == KeyUpTo(ps[0]) + (TextOf(ps[0].value.doc) + (ps[0].value.after + PairsBehind(ps)))
    ensures ArePairs(ps, false) ==> IsPair(ps[0], false) && ArePairs(ps[1..], false)
    ensures MembersOf(ps) == [Member(ps[0].key, ValueOf(ps[0].value.doc))] + MembersOf(ps[1..])
    ensures NestingOfMembers(MembersOf(ps))
         == Max(Nesting(ValueOf(ps[0].value.doc)), NestingOfMembers(MembersOf(ps[1..])))
    ensures |ps| == 1 ==> MembersOf(ps[1..]) == []
  {
    hide TextOf, IsElement, ValueOf, Nesting, KeyUpTo, IsLiteral;
    assert MembersOf(ps)[1..] == MembersOf(ps[1..]);
  }

  lemma PairsStart(ps: seq<Pair>)
    requires ps != []
    ensures PairsFrom(ps) != [] && PairsFrom(ps)[0] == QUOTE
  {
    hide TextOf;
  }

  lemma PairsBehindMore(ps: seq<Pair>)
    requires |ps| > 1
    ensures PairsBehind(ps) == [',' as int] + (ps[1].before + PairsFrom(ps[1..]))
  {
    hide PairsFrom;
  }

  lemma PairBehind(c: Text, o: nat, ps: seq<Pair>)
    requires |ps| > 1 && At(c, o, PairsBehind(ps)) && Blank(ps[1].before)
    ensures var q := o + 1 + |ps[1].before|;
            && SkipWs(c, o + 1) == q && At(c, q, PairsFrom(ps[1..]))
            && q + |PairsFrom(ps[1..])| == o + |PairsBehind(ps)|
  {
    hide PairsFrom, At, PairsBehind, SkipWs, Blank;
    PairsStart(ps[1..]);
    PairsBehindMore(ps);
    AtSplit(c, o, [',' as int], ps[1].before + PairsFrom(ps[1..]));
    BeforeToken(c, o + 1, ps[1].before, PairsFrom(ps[1..]));
  }

  lemma {:induction false} PairsAreRead(c: Text, at: nat, k: nat, ps: seq<Pair>, depth: nat)
    requires ps != [] && ArePairs(ps, false) && depth <= NESTING_LIMIT && at < |c| && SkipWs(c, at + 1) == k
    requires At(c, k, PairsFrom(ps))
    ensures ParseMembers(c, at, depth)
         == Limited(depth, NestingOfMembers(MembersOf(ps)), Ok(MembersOf(ps), k + |PairsFrom(ps)|))
    decreases ps, 0
  {
    hide ParseMembers, ParseMember, ParseValue, At, PairsFrom, KeyUpTo, TextOf, ArePairs, SkipWs, Blank, MembersOf,
         ValueOf, Nesting, NestingOfMembers, IsDoc, NumberEndsAt, Then, PairsBehind, IsLiteral, Proper;
    var d, v := ps[0].value.doc, ValueOf(ps[0].value.doc);
    var off := k + |KeyUpTo(ps[0])|;
    var o := off + |TextOf(d)| + |ps[0].value.after|;
    PairsParts(ps);
    PairsBehindStarts(ps);
    DocStarts(d);
    ProperKey(ps[0]);
    KeyIsRead(c, at, k, ps[0], TextOf(d) + (ps[0].value.after + PairsBehind(ps)), depth);
    AfterValue(c, off, TextOf(d), ps[0].value.after, PairsBehind(ps));
    DocIsRead(c, off, d, depth);
    PairsTurn(c, at, depth);
    if depth + Nesting(v) <= NESTING_LIMIT && |ps| > 1 {
      PairsParts(ps[1..]);
      PairBehind(c, o, ps);
      PairsAreRead(c, o, o + 1 + |ps[1].before|, ps[1..], depth);
      LimitedThen(Member(ps[0].key, v), MembersOf(ps[1..]), depth, Nesting(v), NestingOfMembers(MembersOf(ps[1..])),
                  k + |PairsFrom(ps)|);
    } else if |ps| == 1 {
      NothingNested();
      assert [Member(ps[0].key, v)] + [] == [Member(ps[0].key, v)];
    }
  }

  lemma ProperKey(p: Pair)
    requires IsPair(p, false)
    ensures Proper(p.t, p.key)
  {
    hide Proper;
  }

  lemma EmptyObject(c: Text, off: nat, d: Doc, depth: nat)
    requires d.ObjectDoc? && d.pairs == [] && IsDoc(d, false) && At(c, off, TextOf(d)) && off < |c|
    requires depth <= NESTING_LIMIT
    ensures ParseObject(c, off, depth) == Limited(depth, 1, Ok(Object([]), off + |TextOf(d)|))
  {
    hide At, SkipWs;
    AtByte(c, off, TextOf(d), 0);
    AtSplit(c, off, ['{' as int], d.blank + ['}' as int]);
    BeforeToken(c, off + 1, d.blank, ['}' as int]);
  }

  lemma {:induction false} ObjectIsRead(c: Text, off: nat, d: Doc, depth: nat)
    requires d.ObjectDoc? && d.pairs != [] && IsDoc(d, false) && At(c, off, TextOf(d)) && off < |c|
    requires depth <= NESTING_LIMIT
    ensures ParseObject(c, off, depth) == Limited(depth, Nesting(ValueOf(d)), Ok(ValueOf(d), off + |TextOf(d)|))
    decreases d, 0
  {
    hide TextOf, IsDoc, ValueOf, Nesting, At, SkipWs, ParseMembers, ParseObject, PairsFrom, ArePairs, MembersOf,
         NestingOfMembers, Blank;
    var ps := d.pairs;
    var o := off + 1 + |ps[0].before|;
    ObjectIs(d);
    PairsStart(ps);
    AtSplit(c, off, ['{' as int], ps[0].before + PairsFrom(ps));
    AtByte(c, off, ['{' as int], 0);
    BeforeToken(c, off + 1, ps[0].before, PairsFrom(ps));
    SkipsFrom(c, o);
    ObjectTurn(c, off, o, depth);
    if depth < NESTING_LIMIT { PairsAreRead(c, o - 1, o, ps, depth + 1); }
  }

  lemma ObjectIs(d: Doc)
    requires d.ObjectDoc? && d.pairs != [] && IsDoc(d, false)
    ensures TextOf(d) == ['{' as int] + (d.pairs[0].before + PairsFrom(d.pairs)) && Blank(d.pairs[0].before)
    ensures ArePairs(d.pairs, false) && ValueOf(d) == Object(MembersOf(d.pairs))
    ensures Nesting(ValueOf(d)) == 1 + NestingOfMembers(MembersOf(d.pairs))
  {
    hide PairsFrom, NestingOfMembers, MembersOf, Blank;
    assert ArePairs(d.pairs, false);
  }

  lemma ObjectTurn(c: Text, off: nat, o: nat, depth: nat)
    requires off < o < |c| && c[off] == LBRACE && SkipWs(c, off + 1) == o && c[o] != RBRACE
    ensures ParseObject(c, off, depth) == if depth >= NESTING_LIMIT then Fail
                                          else match ParseMembers(c, o - 1, depth + 1)
                                               case Fail => Fail
                                               case Ok(ms, n) => Ok(Object(ms), n)
  {
    hide ParseMembers, SkipWs;
  }

  // ---- nothing else is read ----

  lemma SkipShown(c: Text, off: nat)
    requires off <= |c|
    ensures Blank(c[off..SkipWs(c, off)])
  {
  }

  /** What parse_value came by, told by the first byte. */
  lemma KindShown(c: Text, off: nat, depth: nat)
    requires off <= |c| && ParseValue(c, off, depth).Ok?
    ensures off < |c|
    ensures var r, b := ParseValue(c, off, depth), c[off];
            || (r.value == Null && c[off..r.next] == NULL_TEXT)
            || (r.value == Bool(true) && c[off..r.next] == TRUE_TEXT)
            || (r.value == Bool(false) && c[off..r.next] == FALSE_TEXT)
            || (b == QUOTE && ParseString(c, off).Ok? && r.value == String(ParseString(c, off).value)
                && r.next == ParseString(c, off).next)
            || ((b == 45 || IsDigit(b)) && r == ParseNumber(c, off))
            || (b == LBRACKET && r == ParseArray(c, off, depth))
            || (b == LBRACE && r == ParseObject(c, off, depth))
  {
    hide ParseNumber, ParseString, ParseArray, ParseObject;
  }

  lemma NumberShown(c: Text, off: nat) returns (n: Numeral)
    requires off < |c| && (c[off] == 45 || IsDigit(c[off])) && ParseNumber(c, off).Ok?
    ensures IsNumeral(n) && NumeralText(n) == c[off..ParseNumber(c, off).next]
    ensures ParseNumber(c, off).value == Number(NumberOf(n))
  {
    hide Strtod, NumberRunEnd, NumeralText, NumberOf, IsNumeral;
    var t := c[off..NumberRunEnd(c, off)];
    var u := t[..Strtod(t).next];
    assert u == c[off..ParseNumber(c, off).next];
    StrtodWithin(t);
    n := NumeralShown(u);
    NumeralIsRead(n);
  }

  lemma {:induction false} DocShown(c: Text, off: nat, depth: nat) returns (d: Doc)
    requires off <= |c| && depth <= NESTING_LIMIT && ParseValue(c, off, depth).Ok?
    ensures IsDoc(d, true) && ValueOf(d) == ParseValue(c, off, depth).value
    ensures depth + Nesting(ValueOf(d)) <= NESTING_LIMIT
    ensures TextOf(d) == c[off..ParseValue(c, off, depth).next]
    decreases |c| - off, 2
  {
    hide ParseValue, ParseNumber, ParseString, ParseArray, ParseObject, Proper, Broken, NumeralText, NumberOf;
    KindShown(c, off, depth);
    var r := ParseValue(c, off, depth);
    if r == ParseArray(c, off, depth) {
      d := ArrayShown(c, off, depth);
    } else if r == ParseObject(c, off, depth) {
      d := ObjectShown(c, off, depth);
    } else if r == ParseNumber(c, off) && (c[off] == 45 || IsDigit(c[off])) {
      var n := NumberShown(c, off);
      d := NumberDoc(n);
    } else if c[off] == QUOTE && ParseString(c, off).Ok? && r.value == String(ParseString(c, off).value)
              && r.next == ParseString(c, off).next {
      LiteralShown(c, off);
      d := StringDoc(c[off + 1..r.next - 1], ParseString(c, off).value);
      assert c[off..r.next] == Quoted(c[off + 1..r.next - 1]);
    } else {
      d := if r.value == Null then NullDoc else BoolDoc(r.value == Bool(true));
      DocStarts(d);
    }
  }

  /** A wider blank before the first item. */
  lemma Widened(es: seq<Element>, blank: Text) returns (wide: seq<Element>)
    requires es != [] && AreItems(es, true) && Blank(blank)
    ensures wide != [] && AreItems(wide, true) && ValuesOf(wide) == ValuesOf(es) && ItemsFrom(wide) == ItemsFrom(es)
    ensures wide[0].before == blank + es[0].before
  {
    wide := [es[0].(before := blank + es[0].before)] + es[1..];
    assert wide[1..] == es[1..];
    hide TextOf, IsDoc, ValueOf;
    assert |es| > 1 ==> wide[1] == es[1];
  }

  /** A stretch of a text from a byte to a place behind it. */
  lemma Bracketed(c: Text, off: nat, o: nat, n: nat)
    requires off < o <= n <= |c|
    ensures c[off..n] == [c[off]] + (c[off + 1..o] + c[o..n]) && (n == o + 1 ==> c[o..n] == [c[o]])
  {
  }

  /** A stretch cut at three places, a single byte standing at the last. */
  lemma Cut(c: Text, a: nat, off: nat, next: nat, o: nat, end: nat)
    requires a <= off <= next <= o < end <= |c|
    ensures c[a..end] == c[a..off] + (c[off..next] + (c[next..o] + ([c[o]] + c[o + 1..end])))
    ensures end == o + 1 ==> c[a..end] == c[a..off] + (c[off..next] + (c[next..o] + [c[o]]))
  {
    assert c[o..end] == [c[o]] + c[o + 1..end];
    assert c[next..end] == c[next..o] + c[o..end];
    assert c[off..end] == c[off..next] + c[next..end];
  }

  lemma Glued(c: Text, a: nat, k: nat, off: nat, m: nat)
    requires a <= k <= off <= m <= |c|
    ensures c[a..m] == c[a..k] + (c[k..off] + c[off..m])
  {
  }

  lemma {:induction false} ArrayShown(c: Text, off: nat, depth: nat) returns (d: Doc)
    requires off < |c| && depth <= NESTING_LIMIT && ParseArray(c, off, depth).Ok?
    ensures IsDoc(d, true) && ValueOf(d) == ParseArray(c, off, depth).value
    ensures depth + Nesting(ValueOf(d)) <= NESTING_LIMIT
    ensures TextOf(d) == c[off..ParseArray(c, off, depth).next]
    decreases |c| - off, 1
  {
    hide ParseElements, SkipWs, Blank, AreItems, ValuesOf, ItemsFrom, NestingOfItems, IsDoc, TextOf, ValueOf, Nesting;
    var o, n := SkipWs(c, off + 1), ParseArray(c, off, depth).next;
    SkipShown(c, off + 1);
    if c[o] == RBRACKET {
      d := ArrayDoc(c[off + 1..o], []);
      NoItemsShown();
      ArrayDocIs(d.blank, []);
      Bracketed(c, off, o, n);
    } else {
      var es := ItemsShown(c, o - 1, depth + 1);
      var wide := Widened(es, c[off + 1..o]);
      d := ArrayDoc([], wide);
      NoItemsShown();
      ArrayDocIs([], wide);
      Bracketed(c, off, o, n);
    }
  }

  lemma NoItemsShown()
    ensures ValuesOf([]) == [] && Blank([]) && MembersOf([]) == []
    ensures forall lenient :: AreItems([], lenient) && ArePairs([], lenient)
    ensures NestingOfItems([]) == 0 && NestingOfMembers([]) == 0
  {
  }

  lemma {:induction false} ItemsShown(c: Text, at: nat, depth: nat) returns (es: seq<Element>)
    requires at < |c| && depth <= NESTING_LIMIT && ParseElements(c, at, depth).Ok?
    ensures es != [] && AreItems(es, true) && ValuesOf(es) == ParseElements(c, at, depth).value
    ensures depth + NestingOfItems(ValuesOf(es)) <= NESTING_LIMIT
    ensures es[0].before + ItemsFrom(es) == c[at + 1..ParseElements(c, at, depth).next]
    decreases |c| - at, 0
  {
    hide ParseElements, ParseValue, SkipWs, Blank, IsDoc, ValueOf, TextOf, AreItems, ValuesOf, ItemsFrom, Nesting,
         NestingOfItems;
    var off := SkipWs(c, at + 1);
    ItemsTurn(c, at, depth, off);
    var next, end := ParseValue(c, off, depth).next, ParseElements(c, at, depth).next;
    var o := SkipWs(c, next);
    SkipShown(c, at + 1);
    SkipShown(c, next);
    var d := DocShown(c, off, depth);
    var e := Element(c[at + 1..off], d, c[next..o]);
    if c[o] == COMMA {
      var rest := ItemsShown(c, o, depth);
      es := [e] + rest;
      ItemsGrow(e, rest, true);
      ItemsParts(es);
      assert es[1..] == rest;
      Cut(c, at + 1, off, next, o, end);
    } else {
      es := [e];
      ItemsEnd(e, true);
      ItemsParts(es);
      NoItemsShown();
      Cut(c, at + 1, off, next, o, end);
    }
  }

  lemma ItemsGrow(e: Element, rest: seq<Element>, lenient: bool)
    requires rest != [] && AreItems(rest, lenient) && IsElement(e, lenient)
    ensures AreItems([e] + rest, lenient) && ValuesOf([e] + rest) == [ValueOf(e.doc)] + ValuesOf(rest)
    ensures ItemsFrom([e] + rest)
         == TextOf(e.doc) + (e.after + ([',' as int] + (rest[0].before + ItemsFrom(rest))))
  {
    hide TextOf, IsElement, ValueOf;
    assert ([e] + rest)[1..] == rest && ([e] + rest)[1] == rest[0];
  }

  lemma ItemsEnd(e: Element, lenient: bool)
    requires IsElement(e, lenient)
    ensures AreItems([e], lenient) && ValuesOf([e]) == [ValueOf(e.doc)]
    ensures ItemsFrom([e]) == TextOf(e.doc) + (e.after + [']' as int])
  {
    hide TextOf, IsElement, ValueOf;
    NoItemsShown();
    assert [e][1..] == [];
  }

  lemma {:induction false} ObjectShown(c: Text, off: nat, depth: nat) returns (d: Doc)
    requires off < |c| && depth <= NESTING_LIMIT && ParseObject(c, off, depth).Ok?
    ensures IsDoc(d, true) && ValueOf(d) == ParseObject(c, off, depth).value
    ensures depth + Nesting(ValueOf(d)) <= NESTING_LIMIT
    ensures TextOf(d) == c[off..ParseObject(c, off, depth).next]
    decreases |c| - off, 1
  {
    hide ParseMembers, SkipWs, Blank, ArePairs, MembersOf, PairsFrom, NestingOfMembers, IsDoc, TextOf, ValueOf, Nesting;
    var o, n := SkipWs(c, off + 1), ParseObject(c, off, depth).next;
    SkipShown(c, off + 1);
    if c[o] == RBRACE {
      d := ObjectDoc(c[off + 1..o], []);
      NoItemsShown();
      ObjectDocIs(d.blank, [], true);
      Bracketed(c, off, o, n);
    } else {
      var ps := PairsShown(c, o - 1, depth + 1);
      var wide := WidenedPairs(ps, c[off + 1..o]);
      d := ObjectDoc([], wide);
      NoItemsShown();
      ObjectDocIs([], wide, true);
      Bracketed(c, off, o, n);
    }
  }

  lemma ArrayDocIs(blank: Text, es: seq<Element>)
    requires Blank(blank) && AreItems(es, true)
    ensures var d := ArrayDoc(blank, es);
            && IsDoc(d, true) && ValueOf(d) == Array(ValuesOf(es))
            && Nesting(ValueOf(d)) == 1 + NestingOfItems(ValuesOf(es))
            && TextOf(d) == [LBRACKET] + if es == [] then blank + [RBRACKET] else es[0].before + ItemsFrom(es)
  {
    hide Blank, AreItems, ValuesOf, NestingOfItems, ItemsFrom;
  }

  lemma ObjectDocIs(blank: Text, ps: seq<Pair>, lenient: bool)
    requires Blank(blank) && ArePairs(ps, lenient)
    ensures var d := ObjectDoc(blank, ps);
            && IsDoc(d, lenient) && ValueOf(d) == Object(MembersOf(ps))
            && Nesting(ValueOf(d)) == 1 + NestingOfMembers(MembersOf(ps))
            && TextOf(d) == [LBRACE] + if ps == [] then blank + [RBRACE] else ps[0].before + PairsFrom(ps)
  {
    hide Blank, ArePairs, MembersOf, NestingOfMembers, PairsFrom;
  }

  lemma WidenedPairs(ps: seq<Pair>, blank: Text) returns (wide: seq<Pair>)
    requires ps != [] && ArePairs(ps, true) && Blank(blank)
    ensures wide != [] && ArePairs(wide, true) && MembersOf(wide) == MembersOf(ps) && PairsFrom(wide) == PairsFrom(ps)
    ensures wide[0].before == blank + ps[0].before
  {
    wide := [ps[0].(before := blank + ps[0].before)] + ps[1..];
    assert wide[1..] == ps[1..];
    hide TextOf, IsElement, ValueOf, IsLiteral;
    assert |ps| > 1 ==> wide[1] == ps[1];
  }

  lemma MemberPlaces(c: Text, at: nat, depth: nat)
    requires at < |c| && ParseMember(c, at, depth).Ok?
    ensures var k := SkipWs(c, at + 1);
            && at + 1 <= k < |c| && ParseString(c, k).Ok?
            && var key, n := ParseString(c, k).value, ParseString(c, k).next;
               var o := SkipWs(c, n);
               && n <= o < |c| && c[o] == COLON
               && var off := SkipWs(c, o + 1);
                  && o < off && ParseValue(c, off, depth).Ok? && off < ParseValue(c, off, depth).next <= |c|
                  && ParseMember(c, at, depth)
                     == Ok(Member(key, ParseValue(c, off, depth).value), ParseValue(c, off, depth).next)
  {
    hide ParseString, ParseValue;
  }

  lemma KeyShown(c: Text, k: nat)
    requires k < |c| && ParseString(c, k).Ok?
    ensures var n := ParseString(c, k).next;
            k + 2 <= n <= |c| && c[k] == c[n - 1] == QUOTE && IsLiteral(c[k + 1..n - 1], ParseString(c, k).value, true)
  {
    hide ParseString, Proper, Broken;
    LiteralShown(c, k);
  }

  lemma KeyMade(c: Text, k: nat, n: nat, o: nat, off: nat, p: Pair)
    requires k + 2 <= n <= o < off <= |c| && c[k] == c[n - 1] == QUOTE && c[o] == COLON
    requires p.t == c[k + 1..n - 1] && p.colon == c[n..o] && p.value.before == c[o + 1..off]
    ensures KeyUpTo(p) == c[k..off]
  {
    Bracketed(c, k, n - 1, n);
    Cut(c, k, k, n, o, off);
  }

  /** Key, colon and value, without the blank behind the value. */
  lemma {:induction false} PairShown(c: Text, at: nat, depth: nat) returns (p: Pair)
    requires at < |c| && depth <= NESTING_LIMIT && ParseMember(c, at, depth).Ok?
    ensures IsPair(p, true) && Member(p.key, ValueOf(p.value.doc)) == ParseMember(c, at, depth).value
    ensures p.before + (KeyUpTo(p) + TextOf(p.value.doc)) == c[at + 1..ParseMember(c, at, depth).next]
    ensures p.value.after == [] && depth + Nesting(ValueOf(p.value.doc)) <= NESTING_LIMIT
    decreases |c| - at, 0, 0
  {
    hide ParseMember, ParseString, ParseValue, SkipWs, Blank, IsDoc, ValueOf, TextOf, IsLiteral, Nesting, Quoted,
         KeyUpTo;
    MemberPlaces(c, at, depth);
    var k := SkipWs(c, at + 1);
    var n := ParseString(c, k).next;
    var o := SkipWs(c, n);
    var off := SkipWs(c, o + 1);
    var m := ParseValue(c, off, depth).next;
    SkipShown(c, at + 1);
    SkipShown(c, n);
    SkipShown(c, o + 1);
    KeyShown(c, k);
    NoItemsShown();
    var d := DocShown(c, off, depth);
    p := Pair(c[at + 1..k], c[k + 1..n - 1], ParseString(c, k).value, c[n..o], Element(c[o + 1..off], d, []));
    KeyMade(c, k, n, o, off, p);
    Glued(c, at + 1, k, off, m);
  }

  lemma {:induction false} PairsShown(c: Text, at: nat, depth: nat) returns (ps: seq<Pair>)
    requires at < |c| && depth <= NESTING_LIMIT && ParseMembers(c, at, depth).Ok?
    ensures ps != [] && ArePairs(ps, true) && MembersOf(ps) == ParseMembers(c, at, depth).value
    ensures depth + NestingOfMembers(MembersOf(ps)) <= NESTING_LIMIT
    ensures ps[0].before + PairsFrom(ps) == c[at + 1..ParseMembers(c, at, depth).next]
    decreases |c| - at, 0, 1
  {
    hide ParseMembers, ParseMember, SkipWs, Blank, IsDoc, ValueOf, TextOf, ArePairs, MembersOf, PairsFrom, KeyUpTo,
         IsPair, Nesting, NestingOfMembers;
    PairsTurn(c, at, depth);
    var next, end := ParseMember(c, at, depth).next, ParseMembers(c, at, depth).next;
    var o := SkipWs(c, next);
    SkipShown(c, next);
    var q := PairShown(c, at, depth);
    var p := WithAfter(q, c[next..o]);
    Cut(c, at + 1, at + 1, next, o, end);
    if c[o] == COMMA {
      var rest := PairsShown(c, o, depth);
      ps := [p] + rest;
      PairsGrow(p, rest, true);
    } else {
      ps := [p];
      PairsEnd(p, true);
    }
  }

  lemma WithAfter(q: Pair, after: Text) returns (p: Pair)
    requires IsPair(q, true) && Blank(after)
    ensures p == q.(value := q.value.(after := after)) && IsPair(p, true) && KeyUpTo(p) == KeyUpTo(q)
  {
    p := q.(value := q.value.(after := after));
    hide IsLiteral, IsDoc;
  }

  lemma PairsGrow(p: Pair, rest: seq<Pair>, lenient: bool)
    requires rest != [] && ArePairs(rest, lenient) && IsPair(p, lenient)
    ensures ArePairs([p] + rest, lenient)
    ensures MembersOf([p] + rest) == [Member(p.key, ValueOf(p.value.doc))] + MembersOf(rest)
    ensures NestingOfMembers(MembersOf([p] + rest))
         == Max(Nesting(ValueOf(p.value.doc)), NestingOfMembers(MembersOf(rest)))
    ensures PairsFrom([p] + rest) == KeyUpTo(p) + (TextOf(p.value.doc)
                                     + (p.value.after + ([',' as int] + (rest[0].before + PairsFrom(rest)))))
  {
    hide TextOf, IsElement, ValueOf, KeyUpTo, IsLiteral, Nesting;
    assert ([p] + rest)[1..] == rest && ([p] + rest)[1] == rest[0];
    PairsParts([p] + rest);
  }

  lemma PairsEnd(p: Pair, lenient: bool)
    requires IsPair(p, lenient)
    ensures ArePairs([p], lenient) && MembersOf([p]) == [Member(p.key, ValueOf(p.value.doc))]
    ensures NestingOfMembers(MembersOf([p])) == Nesting(ValueOf(p.value.doc))
    ensures PairsFrom([p]) == KeyUpTo(p) + (TextOf(p.value.doc) + (p.value.after + ['}' as int]))
  {
    hide TextOf, IsElement, ValueOf, KeyUpTo, IsLiteral, Nesting;
    NoItemsShown();
    assert [p][1..] == [];
    PairsParts([p]);
  }

  // ---- the entry point ----

  /** White space up to the end of the buffer, and the terminator as its last byte. */
  ghost predicate EndsWell(rest: Text) {
    rest != [] && Blank(rest) && rest[|rest| - 1] == 0
  }

  lemma {:induction false} WsEndFirst(c: Text, i: nat, k: nat)
    requires i <= k <= |c| && (forall j :: i <= j < k ==> c[j] <= 32) && (k < |c| ==> c[k] > 32)
    ensures WsEnd(c, i) == k
    decreases k - i
  {
    if i < k { WsEndFirst(c, i + 1, k); }
  }

  lemma TerminatorSeen(c: Text, n: nat)
    requires n <= |c|
    ensures EndsWell(c[n..]) <==> SkipWs(c, n) < |c| && c[SkipWs(c, n)] == 0
    ensures EndsWell(c[n..]) ==> SkipWs(c, n) == |c| - 1
  {
    var rest := c[n..];
    if Blank(rest) {
      forall j | n <= j < |c| ensures c[j] <= 32 { assert c[j] == rest[j - n]; }
      WsEndFirst(c, n, |c|);
    }
  }

  const BYTE_ORDER_MARK: Text := [0xEF, 0xBB, 0xBF]

  /** Every JSON text, with a byte order mark and blanks in front or without, is parsed to what it means: within
      the nesting limit and, where a terminator is asked for, just when nothing but white space leads to one at
      the end of the buffer. */
  lemma EveryTextIsRead(mark: Text, before: Text, d: Doc, rest: Text, requireNul: bool)
    requires mark == [] || (mark == BYTE_ORDER_MARK && |before + TextOf(d) + rest| > 1)
    requires IsDoc(d, false) && Blank(before) && (d.NumberDoc? && rest != [] ==> !IsNumberByte(rest[0]))
    ensures var c := mark + before + TextOf(d) + rest;
            ParseBuffer(c, requireNul) == if requireNul && !EndsWell(rest) then Fail
                                          else Limited(0, Nesting(ValueOf(d)), Ok(ValueOf(d),
                                                       if requireNul then |c| - 1 else |c| - |rest|))
  {
    hide ParseValue, TextOf, ValueOf, Nesting, IsDoc, SkipWs, Blank, EndsWell, SkipBom;
    var c := mark + before + TextOf(d) + rest;
    var n := |c| - |rest|;
    MarkSkipped(mark, before, d, rest);
    DocBehind(c, mark, before, d, rest);
    assert c[n..] == rest;
    TerminatorSeen(c, n);
  }

  lemma DocBehind(c: Text, mark: Text, before: Text, d: Doc, rest: Text)
    requires c == mark + before + TextOf(d) + rest && IsDoc(d, false) && Blank(before)
    requires d.NumberDoc? && rest != [] ==> !IsNumberByte(rest[0])
    ensures ParseValue(c, SkipWs(c, |mark|), 0) == Limited(0, Nesting(ValueOf(d)), Ok(ValueOf(d), |c| - |rest|))
  {
    hide ParseValue, TextOf, ValueOf, Nesting, IsDoc, At, SkipWs, Blank, NumberEndsAt;
    DocStarts(d);
    Located(c, mark, before, TextOf(d), rest);
    DocIsRead(c, |mark| + |before|, d, 0);
  }

  lemma Located(c: Text, mark: Text, before: Text, t: Text, rest: Text)
    requires c == mark + before + t + rest && Blank(before) && t != [] && t[0] > 32
    ensures SkipWs(c, |mark|) == |mark| + |before| && At(c, |mark| + |before|, t)
    ensures (rest != [] ==> !IsNumberByte(rest[0])) ==> NumberEndsAt(c, |mark| + |before| + |t|)
  {
    hide At, SkipWs, Blank;
    assert c == mark + (before + (t + rest));
    Whole(c);
    AtSplit(c, 0, mark, before + (t + rest));
    BeforeToken(c, |mark|, before, t + rest);
    AtSplit(c, |mark| + |before|, t, rest);
    if rest != [] { AtByte(c, |mark| + |before| + |t|, rest, 0); }
  }

  lemma MarkSkipped(mark: Text, before: Text, d: Doc, rest: Text)
    requires mark == [] || (mark == BYTE_ORDER_MARK && |before + TextOf(d) + rest| > 1)
    requires IsDoc(d, false) && Blank(before)
    ensures SkipBom(mark + before + TextOf(d) + rest) == |mark|
  {
    hide TextOf, IsDoc;
    var c := mark + before + TextOf(d) + rest;
    DocStarts(d);
    FirstByte(d);
    if mark == [] {
      if before == [] { assert c[0] == TextOf(d)[0]; } else { assert c[0] == before[0]; }
      if |c| > 4 { assert c[..3][0] == c[0]; }
    } else {
      assert c[..3] == mark;
    }
  }

  lemma FirstByte(d: Doc)
    requires IsDoc(d, false)
    ensures TextOf(d) != [] && TextOf(d)[0] < 128
  {
    DocStarts(d);
    hide TextOf;
  }

  lemma FourParts(c: Text, b: nat, off: nat, n: nat)
    requires b <= off <= n <= |c|
    ensures c == c[..b] + c[b..off] + c[off..n] + c[n..]
  {
    assert c[..off] == c[..b] + c[b..off];
    assert c[..n] == c[..off] + c[off..n];
  }

  /** Whatever is accepted is such a text, except that a wrong \u escape may end a string early: a mark or none,
      a blank, a document with the value that came out and, where it is asked for, the terminator. */
  lemma OnlyTextsAreRead(c: Text, requireNul: bool) returns (mark: Text, before: Text, d: Doc, rest: Text)
    requires ParseBuffer(c, requireNul).Ok?
    ensures c == mark + before + TextOf(d) + rest && (mark == [] || mark == BYTE_ORDER_MARK) && Blank(before)
    ensures IsDoc(d, true) && Nesting(ValueOf(d)) <= NESTING_LIMIT && (requireNul ==> EndsWell(rest))
    ensures ParseBuffer(c, requireNul) == Ok(ValueOf(d), if requireNul then |c| - 1 else |c| - |rest|)
  {
    hide ParseValue, TextOf, ValueOf, Nesting, IsDoc, SkipWs, Blank, EndsWell;
    var b := SkipBom(c);
    var off := SkipWs(c, b);
    var n := ParseValue(c, off, 0).next;
    mark, before, rest := c[..b], c[b..off], c[n..];
    d := DocShown(c, off, 0);
    SkipShown(c, b);
    TerminatorSeen(c, n);
    FourParts(c, b, off, n);
  }
}
