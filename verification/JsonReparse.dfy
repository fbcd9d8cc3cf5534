/** Every value that the parser accepts stays inside the limits of the printer and of the parser,
    so printing and parsing again changes nothing. */
module JsonReparse {
  import opened Bytes
  import opened JsonValue
  import opened JsonParser
  import opened JsonRoundTrip

  /** Within the limits of the printer, and of a second parse at the same depth. */
  ghost predicate Reusable(v: Value, depth: nat) {
    depth + Nesting(v) <= NESTING_LIMIT && (IntNumbers(v) ==> Printable(v))
  }

  ghost predicate ItemsReusable(items: seq<Value>, depth: nat) {
    depth + NestingOfItems(items) <= NESTING_LIMIT
    && (forall i :: 0 <= i < |items| ==> IntNumbers(items[i]) ==> Printable(items[i]))
  }

  ghost predicate MembersReusable(ms: seq<Member>, depth: nat) {
    depth + NestingOfMembers(ms) <= NESTING_LIMIT
    && (forall i :: 0 <= i < |ms| ==> NulFree(ms[i].key) && (IntNumbers(ms[i].value) ==> Printable(ms[i].value)))
  }

  lemma PrependItem(v: Value, items: seq<Value>, depth: nat)
    requires Reusable(v, depth) && ItemsReusable(items, depth)
    ensures ItemsReusable([v] + items, depth)
  {
    assert ([v] + items)[1..] == items;
  }

  lemma PrependMember(m: Member, ms: seq<Member>, depth: nat)
    requires NulFree(m.key) && Reusable(m.value, depth) && MembersReusable(ms, depth)
    ensures MembersReusable([m] + ms, depth)
  {
    assert ([m] + ms)[1..] == ms;
  }

  lemma {:induction false} ParsedValueReusable(c: Text, off: nat, depth: nat)
    requires off <= |c| && depth <= NESTING_LIMIT && ParseValue(c, off, depth).Ok?
    ensures Reusable(ParseValue(c, off, depth).value, depth)
    decreases |c| - off, 2
  {
    hide ParseValue, ParseArray, ParseObject;
    var v := ParseValue(c, off, depth).value;
    KindOfValue(c, off, depth);
    if v.Array? {
      ParsedArrayReusable(c, off, depth);
    } else if v.Object? {
      ParsedObjectReusable(c, off, depth);
    }
  }

  lemma KindOfValue(c: Text, off: nat, depth: nat)
    requires off <= |c| && ParseValue(c, off, depth).Ok?
    ensures var v := ParseValue(c, off, depth).value;
            (v.Array? ==> off < |c| && ParseValue(c, off, depth) == ParseArray(c, off, depth))
            && (v.Object? ==> off < |c| && ParseValue(c, off, depth) == ParseObject(c, off, depth))
            && (v.String? ==> NulFree(v.s))
  {
    hide ParseArray, ParseObject, ParseNumber, HasPrefix, ParseString;
    if off < |c| { KindOfResult(c, off, depth); }
  }

  lemma KindOfResult(c: Text, off: nat, depth: nat)
    requires off < |c|
    ensures ParseArray(c, off, depth).Ok? ==> ParseArray(c, off, depth).value.Array?
    ensures ParseObject(c, off, depth).Ok? ==> ParseObject(c, off, depth).value.Object?
    ensures ParseNumber(c, off).Ok? ==> ParseNumber(c, off).value.Number?
  {
    hide ParseElements, ParseMembers, Strtod;
  }

  lemma {:induction false} ParsedArrayReusable(c: Text, off: nat, depth: nat)
    requires off < |c| && depth <= NESTING_LIMIT && ParseArray(c, off, depth).Ok?
    ensures Reusable(ParseArray(c, off, depth).value, depth)
    decreases |c| - off, 1
  {
    hide ParseElements;
    var o := SkipWs(c, off + 1);
    if c[o] != RBRACKET {
      ParsedElementsReusable(c, o - 1, depth + 1);
    }
  }

  lemma {:induction false} ParsedElementsReusable(c: Text, at: nat, depth: nat)
    requires at < |c| && depth <= NESTING_LIMIT && ParseElements(c, at, depth).Ok?
    ensures ItemsReusable(ParseElements(c, at, depth).value, depth)
    decreases |c| - at, 0
  {
    var off := SkipWs(c, at + 1);
    assert ParseValue(c, off, depth).Ok?;
    var v := ParseValue(c, off, depth).value;
    var o := SkipWs(c, ParseValue(c, off, depth).next);
    var rest := if c[o] == COMMA then ParseElements(c, o, depth).value else [];
    assert ParseElements(c, at, depth).value == [v] + rest;
    hide ParseElements, ParseValue, Reusable;
    ParsedValueReusable(c, off, depth);
    if c[o] == COMMA {
      ParsedElementsReusable(c, o, depth);
    }
    PrependItem(v, rest, depth);
  }

  lemma {:induction false} ParsedObjectReusable(c: Text, off: nat, depth: nat)
    requires off < |c| && depth <= NESTING_LIMIT && ParseObject(c, off, depth).Ok?
    ensures Reusable(ParseObject(c, off, depth).value, depth)
    decreases |c| - off, 1
  {
    hide ParseMembers;
    var o := SkipWs(c, off + 1);
    if c[o] != RBRACE {
      ParsedMembersReusable(c, o - 1, depth + 1);
    }
  }

  lemma {:induction false} ParsedMemberReusable(c: Text, at: nat, depth: nat)
    requires at < |c| && depth <= NESTING_LIMIT && ParseMember(c, at, depth).Ok?
    ensures NulFree(ParseMember(c, at, depth).value.key) && Reusable(ParseMember(c, at, depth).value.value, depth)
    decreases |c| - at, 0, 0
  {
    hide ParseValue, SkipWs;
    var k := SkipWs(c, at + 1);
    var o := SkipWs(c, ParseString(c, k).next);
    ParsedValueReusable(c, SkipWs(c, o + 1), depth);
  }

  lemma {:induction false} ParsedMembersReusable(c: Text, at: nat, depth: nat)
    requires at < |c| && depth <= NESTING_LIMIT && ParseMembers(c, at, depth).Ok?
    ensures MembersReusable(ParseMembers(c, at, depth).value, depth)
    decreases |c| - at, 0, 1
  {
    assert ParseMember(c, at, depth).Ok?;
    var m := ParseMember(c, at, depth).value;
    var o := SkipWs(c, ParseMember(c, at, depth).next);
    var rest := if c[o] == COMMA then ParseMembers(c, o, depth).value else [];
    assert ParseMembers(c, at, depth).value == [m] + rest;
    hide ParseMembers, ParseMember, Reusable;
    ParsedMemberReusable(c, at, depth);
    if c[o] == COMMA {
      ParsedMembersReusable(c, o, depth);
    }
    PrependMember(m, rest, depth);
  }

  /** For every input text, well formed or not: when it is accepted and holds integer numbers only,
      the printed form of the result, formatted or not, parses to the same result. */
  lemma ReparseIsStable(c: Text, requireNul: bool, format: bool)
    requires ParseBuffer(c, requireNul).Ok? && IntNumbers(ParseBuffer(c, requireNul).value)
    ensures var v := ParseBuffer(c, requireNul).value;
            ParseBuffer(ValueText(v, format, 0) + [0], true) == Ok(v, |ValueText(v, format, 0)|)
  {
    hide ParseValue, Printable, ValueText;
    var v := ParseBuffer(c, requireNul).value;
    ParsedValueReusable(c, SkipWs(c, SkipBom(c)), 0);
    TerminatedRoundTrip(v, format, true);
  }
}
