/** What the printer writes is a JSON text of the value, blank for blank, and parsing it gives the value back. */
module JsonRoundTrip {
  import opened Bytes
  import opened JsonValue
  import opened JsonParser
  import opened JsonStrings
  import opened JsonTokens
  import opened JsonGrammar

  // ---- numbers ----

  lemma {:induction false} DigitsValueOfNatText(n: nat)
    ensures DigitsValue(NatText(n)) == n
  {
    if n >= 10 {
      DigitsValueOfNatText(n / 10);
      var t := NatText(n);
      assert t[..|t| - 1] == NatText(n / 10);
    } else {
      assert [48 + n][..0] == [];
    }
  }

  function IntNumeral(n: int): Numeral {
    Numeral(n < 0, Shown(NatText(if n < 0 then -n else n)), false, [], None)
  }

  lemma IntIsNumeral(n: int)
    ensures IsNumeral(IntNumeral(n)) && NumeralText(IntNumeral(n)) == IntText(n) && NumberOf(IntNumeral(n)) == n as real
  {
    hide NatText, DigitsValue, Places, DigitText;
    var m: nat := if n < 0 then -n else n;
    var ds := Shown(NatText(m));
    DigitsValueOfNatText(m);
    DigitsAreValue(ds);
    assert ds + [] == ds && Ten(0) == 1;
  }

  // ---- strings ----

  /** How the printer spells a byte. */
  function ItemFor(b: Byte): Item {
    if b == 0x22 then Short(0)
    else if b == 0x5C then Short(1)
    else if b == 0x08 then Short(3)
    else if b == 0x0C then Short(4)
    else if b == 0x0A then Short(5)
    else if b == 0x0D then Short(6)
    else if b == 0x09 then Short(7)
    else if b < 0x20 then Unicode(b)
    else Raw(b)
  }

  lemma DigitWritten(d: nat)
    requires d < 16
    ensures IsDigitOf(HexDigit(d), d)
  {
    assert d == 0 || d == 1 || d == 2 || d == 3 || d == 4 || d == 5 || d == 6 || d == 7 || d == 8 || d == 9 || d == 10
        || d == 11 || d == 12 || d == 13 || d == 14 || d == 15;
  }

  lemma ByteSpelled(b: Byte, rest: Text)
    ensures var x := ItemFor(b);
            IsItem(x) && ItemLength(x) == |EscapeByte(b)| && ItemAt(EscapeByte(b) + rest, x) && ItemBytes(x) == [b]
  {
    var t := EscapeByte(b) + rest;
    if ItemFor(b).Unicode? {
      assert t[2..6] == [48, 48, HexDigit(b / 16), HexDigit(b % 16)];
      hide IsDigitOf;
      DigitWritten(0);
      DigitWritten(b / 16);
      DigitWritten(b % 16);
    }
  }

  function ItemsFor(s: Text): seq<Item> {
    if s == [] then [] else [ItemFor(s[0])] + ItemsFor(s[1..])
  }

  lemma {:induction false} TextSpelled(s: Text)
    ensures EscapesTo(Escape(s), ItemsFor(s)) && (forall i :: 0 <= i < |ItemsFor(s)| ==> IsItem(ItemsFor(s)[i]))
    ensures Meaning(ItemsFor(s)) == s
  {
    hide ItemFor, ItemAt, EscapeByte, ItemBytes, IsItem;
    if s != [] {
      ByteSpelled(s[0], Escape(s[1..]));
      TextSpelled(s[1..]);
      var t := EscapeByte(s[0]) + Escape(s[1..]);
      assert t[|EscapeByte(s[0])|..] == Escape(s[1..]);
      assert ItemsFor(s)[1..] == ItemsFor(s[1..]);
    }
  }

  /** The escaped text is a literal for the string. */
  lemma EscapedIsProper(s: Text)
    requires NulFree(s)
    ensures Proper(Escape(s), s) && StringText(s) == Quoted(Escape(s))
  {
    TextSpelled(s);
    CStringOfNulFree(s);
    assert Spelled(Escape(s), ItemsFor(s), s);
  }

  // ---- the printed document ----

  /** A new line at this depth, when the text is formatted. */
  function NewLine(format: bool, depth: nat): (t: Text)
    ensures Blank(t)
  {
    if format then ['\n' as int] + seq(depth, _ => '\t' as int) else []
  }

  /** The document that is printed for a value: unformatted without blanks; formatted with every member on a line
      of its own, as many tabs in front of it as objects and arrays are open, a tab behind each colon and a
      space behind each comma of an array. */
  function DocOf(v: Value, format: bool, depth: nat): Doc
    decreases v, 1
  {
    match v
    case Null => NullDoc
    case Bool(b) => BoolDoc(b)
    case Number(d) => NumberDoc(IntNumeral(ValueInt(d)))
    case String(s) => StringDoc(Escape(s), s)
    case Array(items) => ArrayDoc([], ElementsOf(items, format, depth + 1, true))
    case Object(ms) => ObjectDoc(NewLine(format, depth), PairsOf(ms, format, depth + 1))
  }

  function ElementsOf(items: seq<Value>, format: bool, depth: nat, first: bool): (es: seq<Element>)
    ensures |es| == |items|
    decreases items, 0
  {
    if items == [] then []
    else [Element(if format && !first then [' ' as int] else [], DocOf(items[0], format, depth), [])]
         + ElementsOf(items[1..], format, depth, false)
  }

  function PairsOf(ms: seq<Member>, format: bool, depth: nat): (ps: seq<Pair>)
    requires depth > 0
    ensures |ps| == |ms|
    decreases ms, 0
  {
    if ms == [] then []
    else
      var after := if |ms| == 1 then NewLine(format, depth - 1) else [];
      var value := Element(if format then ['\t' as int] else [], DocOf(ms[0].value, format, depth), after);
      [Pair(NewLine(format, depth), Escape(ms[0].key), ms[0].key, [], value)] + PairsOf(ms[1..], format, depth)
  }

  /** It is a JSON text of the value. */
  lemma {:induction false} PrintedIsDoc(v: Value, format: bool, depth: nat)
    requires Printable(v)
    ensures IsDoc(DocOf(v, format, depth), false) && ValueOf(DocOf(v, format, depth)) == v
    ensures TextOf(DocOf(v, format, depth)) == ValueText(v, format, depth)
    decreases v, 1
  {
    hide NumeralText, IntText, NumberOf, IntNumeral, IsNumeral, Proper, Escape, Quoted, ElementsOf, PairsOf, ItemsFrom,
         PairsFrom, AreItems, ArePairs, ValuesOf, MembersOf, ItemsText, MembersText, DocOf, TextOf, ValueOf, IsDoc,
         ValueText;
    match v
    case Null => PlainDoc(v, format, depth);
    case Bool(_) => PlainDoc(v, format, depth);
    case Number(d) => PlainDoc(v, format, depth);
    case String(s) => PlainDoc(v, format, depth);
    case Array(items) =>
      ItemsArePrinted(items, format, depth + 1, true);
      ArrayPrinted(items, format, depth);
    case Object(ms) =>
      MembersArePrinted(ms, format, depth + 1);
      ObjectPrinted(ms, format, depth);
  }

  lemma PlainDoc(v: Value, format: bool, depth: nat)
    requires Printable(v) && !v.Array? && !v.Object?
    ensures IsDoc(DocOf(v, format, depth), false) && ValueOf(DocOf(v, format, depth)) == v
    ensures TextOf(DocOf(v, format, depth)) == ValueText(v, format, depth)
  {
    hide NumeralText, IntText, NumberOf, IntNumeral, IsNumeral, Proper, Escape, Quoted;
    match v
    case Number(d) => IntIsNumeral(ValueInt(d));
    case String(s) => EscapedIsProper(s);
    case _ =>
  }

  lemma ArrayPrinted(items: seq<Value>, format: bool, depth: nat)
    requires var es := ElementsOf(items, format, depth + 1, true);
             && AreItems(es, false) && ValuesOf(es) == items
             && (items != [] ==> ItemsFrom(es) == ItemsText(items, format, depth + 1) + [RBRACKET]
                                 && es[0].before == [])
             && (items == [] ==> ItemsText(items, format, depth + 1) == [])
    ensures var d := DocOf(Array(items), format, depth);
            IsDoc(d, false) && ValueOf(d) == Array(items) && TextOf(d) == ValueText(Array(items), format, depth)
  {
    hide AreItems, ValuesOf, ItemsFrom, ItemsText, ElementsOf;
    assert Blank([]);
  }

  lemma ObjectPrinted(ms: seq<Member>, format: bool, depth: nat)
    requires var ps := PairsOf(ms, format, depth + 1);
             && ArePairs(ps, false) && MembersOf(ps) == ms
             && (ms != [] ==> NewLine(format, depth + 1) + PairsFrom(ps)
                              == (if format then [NEWLINE] else []) + MembersText(ms, format, depth + 1)
                                 + Closing(format, depth)
                              && ps[0].before == NewLine(format, depth + 1))
             && (ms == [] ==> MembersText(ms, format, depth + 1) == [])
    ensures var d := DocOf(Object(ms), format, depth);
            IsDoc(d, false) && ValueOf(d) == Object(ms) && TextOf(d) == ValueText(Object(ms), format, depth)
  {
    hide ArePairs, MembersOf, PairsFrom, MembersText, PairsOf, DocOf, TextOf, ValueOf, IsDoc, ValueText, Opening,
         Closing, NewLine, Blank;
    var ps, blank := PairsOf(ms, format, depth + 1), NewLine(format, depth);
    ObjectDocOf(ms, format, depth);
    ObjectDocIs(blank, ps, false);
    ObjectTextUnfold(ms, format, depth);
    ObjectBlanks(format, depth);
    var nl, body := if format then [NEWLINE] else [], MembersText(ms, format, depth + 1);
    assert [LBRACE] + (nl + body + Closing(format, depth)) == [LBRACE] + nl + body + Closing(format, depth);
  }

  lemma ObjectDocOf(ms: seq<Member>, format: bool, depth: nat)
    ensures DocOf(Object(ms), format, depth) == ObjectDoc(NewLine(format, depth), PairsOf(ms, format, depth + 1))
  {
    hide PairsOf, NewLine;
  }

  lemma ObjectBlanks(format: bool, depth: nat)
    ensures Opening(format) == [LBRACE] + if format then [NEWLINE] else []
    ensures NewLine(format, depth) + [RBRACE] == (if format then [NEWLINE] else []) + Closing(format, depth)
  {
  }

  lemma {:induction false} ItemsArePrinted(items: seq<Value>, format: bool, depth: nat, first: bool)
    requires Printable(Array(items))
    ensures var es := ElementsOf(items, format, depth, first);
            && AreItems(es, false) && ValuesOf(es) == items
            && (items != [] ==> ItemsFrom(es) == ItemsText(items, format, depth) + [RBRACKET]
                                && es[0].before == if format && !first then [SPACE] else [])
            && (items == [] ==> ItemsText(items, format, depth) == [])
    decreases items, 0
  {
    hide DocOf, TextOf, ValueText, ValueOf, IsDoc, AreItems, ValuesOf, ItemsFrom;
    NoItemsShown();
    if items != [] {
      PrintedIsDoc(items[0], format, depth);
      ItemsArePrinted(items[1..], format, depth, false);
      var e := ElementsOf(items, format, depth, first)[0];
      var rest := ElementsOf(items[1..], format, depth, false);
      assert ElementsOf(items, format, depth, first) == [e] + rest && [items[0]] + items[1..] == items;
      if |items| == 1 { assert [e] + rest == [e]; ItemsEnd(e, false); } else { ItemsGrow(e, rest, false); }
      JoinItems(ValueText(items[0], format, depth), ItemsText(items[1..], format, depth), format);
    }
  }

  /** The blank behind a comma is printed with it. */
  lemma JoinItems(v: Text, rest: Text, format: bool)
    ensures var blank := if format then [SPACE] else [];
            && v + ([] + ([COMMA] + (blank + (rest + [RBRACKET]))))
               == v + (if format then [COMMA, SPACE] else [COMMA]) + rest + [RBRACKET]
            && v + ([] + [RBRACKET]) == v + [] + [] + [RBRACKET]
  {
    assert [COMMA] + [SPACE] == [COMMA, SPACE];
  }

  lemma {:induction false} MembersArePrinted(ms: seq<Member>, format: bool, depth: nat)
    requires Printable(Object(ms)) && depth > 0
    ensures var ps := PairsOf(ms, format, depth);
            && ArePairs(ps, false) && MembersOf(ps) == ms
            && (ms != [] ==> NewLine(format, depth) + PairsFrom(ps)
                             == (if format then [NEWLINE] else []) + MembersText(ms, format, depth)
                                + Closing(format, depth - 1)
                             && ps[0].before == NewLine(format, depth))
            && (ms == [] ==> MembersText(ms, format, depth) == [])
    decreases ms, 0
  {
    hide DocOf, TextOf, ValueText, ValueOf, IsDoc, ArePairs, MembersOf, PairsFrom, NewLine, Closing, IsLiteral, Escape,
         KeyUpTo, MemberPrefix, MemberSuffix, Blank;
    NoItemsShown();
    if ms != [] {
      var m := ms[0];
      PrintedIsDoc(m.value, format, depth);
      MembersArePrinted(ms[1..], format, depth);
      var p := PairsOf(ms, format, depth)[0];
      var rest := PairsOf(ms[1..], format, depth);
      assert PairsOf(ms, format, depth) == [p] + rest && [m] + ms[1..] == ms;
      PairPrinted(p, m, format, depth);
      var v, nl := ValueText(m.value, format, depth), if format then [NEWLINE] else [];
      var prefix := MemberPrefix(m.key, format, depth);
      if |ms| == 1 {
        assert [p] + rest == [p];
        PairsEnd(p, false);
        JoinLast(NewLine(format, depth), KeyUpTo(p), v, p.value.after, nl, prefix, Closing(format, depth - 1));
      } else {
        PairsGrow(p, rest, false);
        JoinMore(NewLine(format, depth), KeyUpTo(p), v, PairsFrom(rest), nl, prefix,
                 MembersText(ms[1..], format, depth), Closing(format, depth - 1));
      }
      SuffixIs(ms, format);
    }
  }

  lemma PairPrinted(p: Pair, m: Member, format: bool, depth: nat)
    requires NulFree(m.key) && depth > 0
    requires IsDoc(p.value.doc, false) && (p.value.after == [] || p.value.after == NewLine(format, depth - 1))
    requires p == Pair(NewLine(format, depth), Escape(m.key), m.key, [],
                       Element(if format then [TAB] else [], p.value.doc, p.value.after))
    ensures IsPair(p, false)
    ensures var nl := if format then [NEWLINE] else [];
            && NewLine(format, depth) + KeyUpTo(p) == nl + MemberPrefix(m.key, format, depth)
            && NewLine(format, depth - 1) + [RBRACE] == nl + Closing(format, depth - 1)
  {
    hide IsDoc, Proper, Escape, StringText;
    EscapedIsProper(m.key);
    var q, tab := Quoted(Escape(m.key)), if format then [TAB] else [];
    assert KeyUpTo(p) == q + ([COLON] + tab);
    assert [COLON] + [TAB] == [COLON, TAB];
    if format { assert NewLine(true, depth) == [NEWLINE] + Tabs(depth); }
  }

  lemma SuffixIs(ms: seq<Member>, format: bool)
    ensures MemberSuffix(ms, format) == (if |ms| <= 1 then [] else [COMMA]) + if format then [NEWLINE] else []
  {
  }

  lemma JoinMore(a: Text, k: Text, v: Text, r: Text, nl: Text, prefix: Text, rest: Text, c: Text)
    requires a + k == nl + prefix && a + r == nl + rest + c
    ensures a + (k + (v + ([] + ([COMMA] + (a + r))))) == nl + (prefix + v + ([COMMA] + nl) + rest) + c
  {
    assert a + (k + (v + ([] + ([COMMA] + (a + r))))) == (a + k) + v + [COMMA] + (a + r);
  }

  lemma JoinLast(a: Text, k: Text, v: Text, b: Text, nl: Text, prefix: Text, c: Text)
    requires a + k == nl + prefix && b + [RBRACE] == nl + c
    ensures a + (k + (v + (b + [RBRACE]))) == nl + (prefix + v + ([] + nl) + []) + c
  {
    assert a + (k + (v + (b + [RBRACE]))) == (a + k) + v + (b + [RBRACE]);
  }

  // ---- formatting ----

  function ItemsPacked(es: seq<Element>): seq<Element>
    decreases es, 0
  {
    if es == [] then [] else [Element([], Packed(es[0].doc), [])] + ItemsPacked(es[1..])
  }

  function PairsPacked(ps: seq<Pair>): seq<Pair>
    decreases ps, 0
  {
    if ps == [] then []
    else [Pair([], ps[0].t, ps[0].key, [], Element([], Packed(ps[0].value.doc), []))] + PairsPacked(ps[1..])
  }

  /** A document without its blanks. */
  function Packed(d: Doc): Doc
    decreases d, 1
  {
    match d
    case ArrayDoc(_, items) => ArrayDoc([], ItemsPacked(items))
    case ObjectDoc(_, pairs) => ObjectDoc([], PairsPacked(pairs))
    case _ => d
  }

  /** Formatting only adds blanks, and the unformatted text has none. */
  lemma {:induction false} FormatAddsBlanks(v: Value, format: bool, depth: nat, plain: nat)
    ensures Packed(DocOf(v, format, depth)) == DocOf(v, false, plain)
    decreases v, 1
  {
    hide ElementsOf, PairsOf, ItemsPacked, PairsPacked, IntNumeral, Escape, NewLine;
    match v
    case Array(items) => ItemsAddBlanks(items, format, depth + 1, plain + 1, true);
    case Object(ms) =>
      NoNewLine(plain);
      MembersAddBlanks(ms, format, depth + 1, plain + 1);
    case _ =>
  }

  lemma NoNewLine(depth: nat)
    ensures NewLine(false, depth) == []
  {
  }

  lemma {:induction false} ItemsAddBlanks(items: seq<Value>, format: bool, depth: nat, plain: nat, first: bool)
    ensures ItemsPacked(ElementsOf(items, format, depth, first)) == ElementsOf(items, false, plain, true)
    ensures ElementsOf(items, false, plain, true) == ElementsOf(items, false, plain, false)
    decreases items, 0
  {
    hide DocOf, Packed;
    if items != [] {
      FormatAddsBlanks(items[0], format, depth, plain);
      ItemsAddBlanks(items[1..], format, depth, plain, false);
      assert ElementsOf(items, format, depth, first)[1..] == ElementsOf(items[1..], format, depth, false);
    }
  }

  lemma {:induction false} MembersAddBlanks(ms: seq<Member>, format: bool, depth: nat, plain: nat)
    requires depth > 0 && plain > 0
    ensures PairsPacked(PairsOf(ms, format, depth)) == PairsOf(ms, false, plain)
    decreases ms, 0
  {
    hide DocOf, Packed, Escape, NewLine;
    if ms != [] {
      NoNewLine(plain);
      NoNewLine(plain - 1);
      FormatAddsBlanks(ms[0].value, format, depth, plain);
      MembersAddBlanks(ms[1..], format, depth, plain);
      assert PairsOf(ms, format, depth)[1..] == PairsOf(ms[1..], format, depth);
    }
  }

  // ---- the promises to callers ----

  /** Parsing at `off` in any buffer that holds the text of `v` there gives `v` back and stops right behind
      the text when the nesting limit allows it, and fails otherwise. */
  lemma ValueRoundTrip(c: Text, off: nat, v: Value, format: bool, printDepth: nat, depth: nat)
    requires Printable(v) && depth <= NESTING_LIMIT
    requires At(c, off, ValueText(v, format, printDepth))
    requires v.Number? ==> NumberEndsAt(c, off + |ValueText(v, format, printDepth)|)
    ensures ParseValue(c, off, depth) == Limited(depth, Nesting(v), Ok(v, off + |ValueText(v, format, printDepth)|))
  {
    KindOfDoc(v, format, printDepth);
    hide ParseValue, ValueText, At, Printable, DocOf, TextOf, ValueOf, IsDoc, Nesting;
    PrintedIsDoc(v, format, printDepth);
    DocIsRead(c, off, DocOf(v, format, printDepth), depth);
  }

  lemma KindOfDoc(v: Value, format: bool, depth: nat)
    ensures DocOf(v, format, depth).NumberDoc? <==> v.Number?
    ensures DocOf(v, format, depth).ArrayDoc? <==> v.Array?
    ensures DocOf(v, format, depth).ObjectDoc? <==> v.Object?
  {
  }

  /** The same for each kind of value by its own parser function. */
  lemma NumberRoundTrip(c: Text, off: nat, n: int)
    requires At(c, off, IntText(n)) && NumberEndsAt(c, off + |IntText(n)|)
    ensures ParseNumber(c, off) == Ok(Number(n as real), off + |IntText(n)|)
  {
    IntIsNumeral(n);
    hide IntText, NumberOf, IsNumeral;
    NumberIsRead(c, off, IntNumeral(n));
  }

  lemma StringRoundTrip(c: Text, off: nat, s: Text)
    requires NulFree(s) && At(c, off, StringText(s))
    ensures ParseString(c, off) == Ok(s, off + |StringText(s)|)
  {
    hide Escape, At;
    EscapedIsProper(s);
    LiteralIsRead(c, off, Escape(s), s);
  }

  lemma ArrayRoundTrip(c: Text, off: nat, items: seq<Value>, format: bool, printDepth: nat, depth: nat)
    requires Printable(Array(items)) && depth <= NESTING_LIMIT
    requires At(c, off, ValueText(Array(items), format, printDepth))
    ensures off < |c|
    ensures ParseArray(c, off, depth) == Limited(depth, Nesting(Array(items)),
                                                 Ok(Array(items), off + |ValueText(Array(items), format, printDepth)|))
  {
    var v := Array(items);
    KindOfDoc(v, format, printDepth);
    hide ParseValue, ParseArray, ValueText, At, Printable, DocOf, TextOf, ValueOf, IsDoc, Nesting;
    PrintedIsDoc(v, format, printDepth);
    Dispatched(c, off, DocOf(v, format, printDepth), depth);
    ValueRoundTrip(c, off, v, format, printDepth, depth);
  }

  lemma ObjectRoundTrip(c: Text, off: nat, ms: seq<Member>, format: bool, printDepth: nat, depth: nat)
    requires Printable(Object(ms)) && depth <= NESTING_LIMIT
    requires At(c, off, ValueText(Object(ms), format, printDepth))
    ensures off < |c|
    ensures ParseObject(c, off, depth) == Limited(depth, Nesting(Object(ms)),
                                                  Ok(Object(ms), off + |ValueText(Object(ms), format, printDepth)|))
  {
    var v := Object(ms);
    KindOfDoc(v, format, printDepth);
    hide ParseValue, ParseObject, ValueText, At, Printable, DocOf, TextOf, ValueOf, IsDoc, Nesting;
    PrintedIsDoc(v, format, printDepth);
    Dispatched(c, off, DocOf(v, format, printDepth), depth);
    ValueRoundTrip(c, off, v, format, printDepth, depth);
  }

  lemma ValueTextStarts(v: Value, format: bool, depth: nat)
    requires Printable(v)
    ensures |ValueText(v, format, depth)| > 0
  {
    hide ValueText, TextOf, DocOf, IsDoc, Printable;
    PrintedIsDoc(v, format, depth);
    DocStarts(DocOf(v, format, depth));
  }

  /** An array or object is recovered whatever bytes follow its text, and refused when it is too deep. */
  lemma ContainerRoundTrip(v: Value, format: bool, trailing: Text)
    requires (v.Array? || v.Object?) && Printable(v)
    ensures ParseBuffer(ValueText(v, format, 0) + trailing, false)
         == Limited(0, Nesting(v), Ok(v, |ValueText(v, format, 0)|))
  {
    BufferRoundTrip(v, format, trailing, false);
  }

  /** Every value within the nesting limit, and no other, is recovered from its NUL-terminated text, also
      when the terminator is required. */
  lemma TerminatedRoundTrip(v: Value, format: bool, requireNul: bool)
    requires Printable(v)
    ensures ParseBuffer(ValueText(v, format, 0) + [0], requireNul)
         == Limited(0, Nesting(v), Ok(v, |ValueText(v, format, 0)|))
  {
    BufferRoundTrip(v, format, [0], requireNul);
  }

  lemma BufferRoundTrip(v: Value, format: bool, rest: Text, requireNul: bool)
    requires Printable(v) && (v.Number? && rest != [] ==> !IsNumberByte(rest[0])) && (requireNul ==> rest == [0])
    ensures ParseBuffer(ValueText(v, format, 0) + rest, requireNul)
         == Limited(0, Nesting(v), Ok(v, |ValueText(v, format, 0)|))
  {
    hide ParseBuffer, ValueText, Printable, DocOf, TextOf, ValueOf, IsDoc, Nesting, EndsWell, IsNumberByte;
    var t := ValueText(v, format, 0);
    KindOfDoc(v, format, 0);
    PrintedIsDoc(v, format, 0);
    ZeroEndsWell();
    assert [] + [] + t + rest == t + rest;
    EveryTextIsRead([], [], DocOf(v, format, 0), rest, requireNul);
  }

  lemma ZeroEndsWell()
    ensures EndsWell([0]) && Blank([])
  {
  }
}
