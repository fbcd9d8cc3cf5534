/** The parser as cJSON runs it: one cursor moved through the input, with loops over
    white space, string literals, array elements and object members. */
module JsonReader {
  import opened Bytes
  import opened Bits
  import opened JsonValue
  import P = JsonParser
  import S = JsonStrings

  /** `r` is what the parser function says, and the cursor stands at its end. */
  ghost predicate Matches<T>(r: Option<T>, offset: nat, spec: P.Parsed<T>) {
    match r
    case None => spec.Fail?
    case Some(v) => spec == P.Ok(v, offset)
  }

  /** Elements already read, put before the outcome of the rest. */
  ghost function Joined<T>(done: seq<T>, rest: P.Parsed<seq<T>>): P.Parsed<seq<T>> {
    match rest
    case Fail => P.Fail
    case Ok(vs, n) => P.Ok(done + vs, n)
  }

  lemma JoinedStep<T>(done: seq<T>, v: T, rest: P.Parsed<seq<T>>)
    ensures Joined(done, Joined([v], rest)) == Joined(done + [v], rest)
  {
    match rest
    case Fail =>
    case Ok(vs, n) => assert done + ([v] + vs) == (done + [v]) + vs;
  }

  lemma JoinedNothing<T>(rest: P.Parsed<seq<T>>)
    ensures Joined([], rest) == rest
  {
    match rest
    case Fail =>
    case Ok(vs, n) => assert [] + vs == vs;
  }

  lemma PrefixedNothing(r: Option<Text>)
    ensures P.Prefixed([], r) == r
  {
    match r
    case None =>
    case Some(w) => assert [] + w == w;
  }

  lemma PrefixedStep(t: Text, u: Text, r: Option<Text>)
    ensures P.Prefixed(t, P.Prefixed(u, r)) == P.Prefixed(t + u, r)
  {
    match r
    case None =>
    case Some(w) => assert t + (u + w) == (t + u) + w;
  }

  /** What the element loop still computes: `more` says that a comma stands at `offset`. */
  ghost function ElementsLeft(c: Text, more: bool, items: seq<Value>, offset: nat, depth: nat): P.Parsed<seq<Value>> {
    if offset >= |c| then P.Fail
    else if more then Joined(items, P.ParseElements(c, offset, depth))
    else if c[offset] == RBRACKET then P.Ok(items, offset + 1)
    else P.Fail
  }

  lemma ElementsTurn(c: Text, at: nat, depth: nat, items: seq<Value>, v: Value, n: nat, o: nat)
    requires at < |c| && P.ParseValue(c, P.SkipWs(c, at + 1), depth) == P.Ok(v, n) && o == P.SkipWs(c, n)
    ensures ElementsLeft(c, true, items, at, depth)
         == ElementsLeft(c, o < |c| && c[o] == COMMA, items + [v], o, depth)
  {
    hide P.ParseValue, P.SkipWs;
    if o < |c| && c[o] == COMMA { JoinedStep(items, v, P.ParseElements(c, o, depth)); }
  }

  ghost function MembersLeft(c: Text, more: bool, ms: seq<Member>, offset: nat, depth: nat): P.Parsed<seq<Member>> {
    if offset >= |c| then P.Fail
    else if more then Joined(ms, P.ParseMembers(c, offset, depth))
    else if c[offset] == RBRACE then P.Ok(ms, offset + 1)
    else P.Fail
  }

  lemma MembersTurn(c: Text, at: nat, depth: nat, ms: seq<Member>, m: Member, n: nat, o: nat)
    requires at < |c| && P.ParseMember(c, at, depth) == P.Ok(m, n) && o == P.SkipWs(c, n)
    ensures MembersLeft(c, true, ms, at, depth)
         == MembersLeft(c, o < |c| && c[o] == COMMA, ms + [m], o, depth)
  {
    hide P.ParseMember, P.SkipWs;
    if o < |c| && c[o] == COMMA { JoinedStep(ms, m, P.ParseMembers(c, o, depth)); }
  }

  lemma MembersFail(c: Text, at: nat, depth: nat)
    requires at < |c| && P.ParseMember(c, at, depth).Fail?
    ensures P.ParseMembers(c, at, depth).Fail?
  {
  }

  lemma ElementsFail(c: Text, at: nat, depth: nat)
    requires at < |c| && P.ParseValue(c, P.SkipWs(c, at + 1), depth).Fail?
    ensures P.ParseElements(c, at, depth).Fail?
  {
  }

  /** parse_hex4 */
  method ReadHex4(c: Text, i: nat) returns (h: nat)
    requires i + 4 <= |c|
    ensures h == P.Hex4(c, i)
  {
    h := 0;
    var k := 0;
    while k < 4
      invariant 0 <= k <= 4
      invariant forall j :: i <= j < i + k ==> P.HexValue(c[j]).Some?
      invariant k == 1 ==> h == 16 * P.HexValue(c[i]).value
      invariant k == 2 ==> h == 256 * P.HexValue(c[i]).value + 16 * P.HexValue(c[i + 1]).value
      invariant k == 3 ==>
                h == 4096 * P.HexValue(c[i]).value + 256 * P.HexValue(c[i + 1]).value + 16 * P.HexValue(c[i + 2]).value
      invariant k == 4 ==> h == P.Hex4(c, i)
      invariant k == 0 ==> h == 0
    {
      match P.HexValue(c[i + k]) {
        case None => return 0;
        case Some(d) => h := h + d;
      }
      if k < 3 { h := 16 * h; }
      k := k + 1;
    }
  }

  /** The encoding loop of utf16_literal_to_utf8: bytes are written from the last to the first. */
  method WriteUtf8(codepoint: nat, output: array<Byte>, n: nat) returns (length: nat)
    requires codepoint < 0x110000 && n + |P.Utf8(codepoint)| <= output.Length
    modifies output
    ensures length == |P.Utf8(codepoint)|
    ensures output[n..n + length] == P.Utf8(codepoint)
    ensures output[..n] == old(output[..n])
  {
    hide And, Or, P.Utf8;
    Utf8Bytes(codepoint);
    var mark := 0;
    if codepoint < 0x80 { length := 1; }
    else if codepoint < 0x800 { length, mark := 2, 0xC0; }
    else if codepoint < 0x10000 { length, mark := 3, 0xE0; }
    else { length, mark := 4, 0xF0; }
    var cp := codepoint;
    var position := length - 1;
    ghost var t := P.Utf8(codepoint);
    while position > 0
      invariant 0 <= position < length
      invariant cp == Shifted(codepoint, length - 1 - position)
      invariant forall k :: position < k < length ==> output[n + k] == t[k]
      invariant output[..n] == old(output[..n])
    {
      S.ContinuationByte(cp);
      output[n + position] := And(Or(cp, 0x80), 0xBF);
      cp := cp / 64;
      position := position - 1;
    }
    if length > 1 {
      S.LeadByte(cp, mark);
      output[n] := Or(cp, mark);
    } else {
      output[n] := cp;
    }
    assert forall k :: 0 <= k < length ==> output[n + k] == t[k];
  }

  /** The bytes of an encoding, by shifts. */
  lemma Utf8Bytes(cp: nat)
    requires cp < 0x110000
    ensures var t := P.Utf8(cp);
            && (forall k :: 0 < k < |t| ==> t[k] == 0x80 + Shifted(cp, |t| - 1 - k) % 64)
            && t[0] == Shifted(cp, |t| - 1)
               + (if |t| == 1 then 0 else if |t| == 2 then 0xC0 else if |t| == 3 then 0xE0 else 0xF0)
            && (|t| == 2 ==> Shifted(cp, 1) < 0x20)
            && (|t| == 3 ==> Shifted(cp, 2) < 0x10)
            && (|t| == 4 ==> Shifted(cp, 3) < 8)
  {
  }

  /** `cp` after `k` shifts by six bits. */
  ghost function Shifted(cp: nat, k: nat): nat {
    if k == 0 then cp else if k == 1 then cp / 64 else if k == 2 then cp / 4096 else cp / 262144
  }

  /** utf16_literal_to_utf8: bytes consumed (0 on failure) and bytes written. */
  method ReadUtf16Literal(c: Text, p: nat, end: nat, output: array<Byte>, n: nat) returns (consumed: nat, written: nat)
    requires p <= end <= |c| && n <= output.Length
    requires var r := P.Utf16Literal(c, p, end); r.Ok? ==> n + |P.Utf8(r.value)| <= output.Length
    modifies output
    ensures output[..n] == old(output[..n])
    ensures var r := P.Utf16Literal(c, p, end);
            if r.Fail? then consumed == 0
            else consumed == r.next && written == |P.Utf8(r.value)| && n + written <= output.Length
                 && output[n..n + written] == P.Utf8(r.value)
  {
    hide And, Or, P.Hex4, P.IsHex4, P.Utf8;
    consumed, written := 0, 0;
    if end - p < 6 { return; }
    var first := ReadHex4(c, p + 2);
    if P.IsLowSurrogate(first) { return; }
    var codepoint, length := first, 6;
    if P.IsHighSurrogate(first) {
      if end - (p + 6) < 6 { return; }
      if c[p + 6] != BACKSLASH || c[p + 7] != 117 { return; }
      var second := ReadHex4(c, p + 8);
      if !P.IsLowSurrogate(second) { return; }
      S.SurrogatePair(first, second);
      codepoint, length := 0x10000 + Or(1024 * And(first, 0x3FF), And(second, 0x3FF)), 12;
    }
    consumed := length;
    written := WriteUtf8(codepoint, output, n);
  }

  class ParseBuffer {
    const content: Text
    var offset: nat
    var depth: nat

    constructor (content: Text)
      ensures this.content == content && offset == 0 && depth == 0
    {
      this.content := content;
      offset, depth := 0, 0;
    }

    /** buffer_skip_whitespace */
    method SkipWhitespace()
      requires offset <= |content|
      modifies this`offset
      ensures offset == P.SkipWs(content, old(offset))
    {
      if offset >= |content| { return; }
      while offset < |content| && content[offset] <= 32
        invariant old(offset) <= offset <= |content|
        invariant P.WsEnd(content, old(offset)) == P.WsEnd(content, offset)
      {
        offset := offset + 1;
      }
      if offset == |content| { offset := offset - 1; }
    }

    /** parse_number: collect the run of number bytes, convert it, step over what was used. */
    method ParseNumber() returns (r: Option<Value>)
      requires offset <= |content|
      modifies this`offset
      ensures Matches(r, offset, P.ParseNumber(content, old(offset)))
    {
      var i := offset;
      while i < |content| && P.IsNumberByte(content[i])
        invariant offset <= i <= |content|
        invariant P.NumberRunEnd(content, offset) == P.NumberRunEnd(content, i)
      {
        i := i + 1;
      }
      match P.Strtod(content[offset..i]) {
        case Fail => return None;
        case Ok(d, used) =>
          offset := offset + used;
          return Some(Number(d));
      }
    }

    /** First pass of parse_string. */
    method FindStringEnd(start: nat) returns (ok: bool, end: nat, skipped: nat)
      requires start <= |content|
      ensures ok == P.ScanEnd(content, start).Ok?
      ensures ok ==> P.ScanEnd(content, start) == P.Ok(end, skipped)
    {
      end, skipped := start, 0;
      while end < |content| && content[end] != QUOTE
        invariant start <= end <= |content|
        invariant P.ScanEnd(content, end).Fail? ==> P.ScanEnd(content, start).Fail?
        invariant P.ScanEnd(content, end).Ok? ==>
          P.ScanEnd(content, start) == P.Ok(P.ScanEnd(content, end).value, P.ScanEnd(content, end).next + skipped)
      {
        if content[end] == BACKSLASH {
          if end + 1 >= |content| { return false, end, skipped; }
          skipped := skipped + 1;
          end := end + 1;
        }
        end := end + 1;
      }
      ok := end < |content|;
    }

    /** parse_string: allocates by the first pass's estimate and fills the allocation in the second. */
    method ParseString() returns (r: Option<Text>)
      requires offset < |content|
      modifies this`offset
      ensures Matches(r, offset, P.ParseString(content, old(offset)))
    {
      var start := offset + 1;
      if content[offset] != QUOTE { offset := start; return None; }
      var ok, end, skipped := FindStringEnd(start);
      if !ok { offset := start; return None; }
      var allocationLength := end - offset - skipped;
      S.SkipsOfScan(content, start);
      S.RoomGrows(content, start, start, end);
      assert S.Room(content, start, start) == 0;
      hide P.ScanEnd, S.Skips, P.Decode;
      var output := new Byte[allocationLength + 1];
      var filled, n := FillOutput(start, end, output);
      if !filled { offset := start; return None; }
      output[n] := 0;
      offset := end + 1;
      r := Some(CString(output[..n]));
    }

    /** Second pass of parse_string into an allocation of the estimated size. */
    method FillOutput(start: nat, end: nat, output: array<Byte>) returns (ok: bool, n: nat)
      requires start <= end < |content| && P.ScanEnd(content, start).Ok? && P.ScanEnd(content, start).value == end
      requires S.Room(content, start, start) == 0 <= S.Room(content, start, end) < output.Length
      modifies output
      ensures ok == P.Decode(content, start, end).Some?
      ensures ok ==> n <= S.Room(content, start, end) && P.Decode(content, start, end) == Some(output[..n])
    {
      hide P.ScanEnd, S.Room, P.Decode;
      ghost var total := P.Decode(content, start, end);
      var p := start;
      n := 0;
      PrefixedNothing(total);
      assert output[..0] == [];
      while p < end
        invariant start <= p <= end + 1
        invariant 0 <= n <= S.Room(content, start, if p <= end then p else end)
        invariant n <= S.Room(content, start, end)
        invariant total == P.Prefixed(output[..n], P.Decode(content, p, end))
        decreases end - p
      {
        ghost var before := output[..n];
        var q, written := SecondPassStep(start, p, end, output, n);
        if q == p { return false, n; }
        S.RoomGrows(content, start, if q <= end then q else end, end);
        PrefixedStep(before, output[n..n + written], P.Decode(content, q, end));
        assert output[..n + written] == before + output[n..n + written];
        p, n := q, n + written;
      }
      DecodeNothing(p, end);
      assert output[..n] + [] == output[..n];
      ok := true;
    }

    lemma DecodeNothing(p: nat, end: nat)
      requires p >= end && end < |content|
      ensures P.Decode(content, p, end) == Some([])
    {
    }

    /** One turn of the second pass: the next position, or `p` itself on failure. */
    method SecondPassStep(start: nat, p: nat, end: nat, output: array<Byte>, n: nat) returns (q: nat, written: nat)
      requires start <= p < end < |content| && P.ScanEnd(content, start).Ok? && P.ScanEnd(content, start).value == end
      requires n <= S.Room(content, start, p) && n <= output.Length && S.Room(content, start, end) <= output.Length
      modifies output
      ensures output[..n] == old(output[..n])
      ensures q == p ==> P.Decode(content, p, end).None?
      ensures q != p ==> p < q <= end + 1
      ensures q != p ==>
              n + written <= S.Room(content, start, if q <= end then q else end) && n + written <= output.Length
      ensures q != p ==> P.Decode(content, p, end) == P.Prefixed(output[n..n + written], P.Decode(content, q, end))
    {
      hide S.Skips, P.ScanEnd, P.Utf16Literal, P.Utf8;
      q, written := p, 0;
      if content[p] != BACKSLASH {
        S.SkipsOneMore(content, start, p);
        S.RoomGrows(content, start, p + 1, end);
        output[n] := content[p];
        q, written := p + 1, 1;
      } else if content[p + 1] == 117 {
        if P.Utf16Literal(content, p, end).Ok? {
          S.UnicodeFits(content, start, p, end);
          S.RoomGrows(content, start, p + P.Utf16Literal(content, p, end).next, end);
        }
        var consumed, w := ReadUtf16Literal(content, p, end, output, n);
        if consumed != 0 { q, written := p + consumed, w; }
      } else {
        match P.SimpleEscape(content[p + 1]) {
          case None =>
          case Some(b) =>
            S.SimpleEscapeFits(content, start, p, end);
            S.RoomGrows(content, start, if p + 2 <= end then p + 2 else end, end);
            output[n] := b;
            q, written := p + 2, 1;
        }
      }
    }

    method ParseValue() returns (r: Option<Value>)
      requires offset <= |content|
      modifies this
      ensures Matches(r, offset, P.ParseValue(content, old(offset), old(depth)))
      ensures r.Some? ==> depth == old(depth)
      decreases |content| - offset, 2
    {
      if P.HasPrefix(content, offset, NULL_TEXT) { offset := offset + 4; return Some(Null); }
      if P.HasPrefix(content, offset, FALSE_TEXT) { offset := offset + 5; return Some(Bool(false)); }
      if P.HasPrefix(content, offset, TRUE_TEXT) { offset := offset + 4; return Some(Bool(true)); }
      if offset >= |content| { return None; }
      if content[offset] == QUOTE {
        var s := ParseString();
        return if s.None? then None else Some(String(s.value));
      }
      if content[offset] == 45 || P.IsDigit(content[offset]) { r := ParseNumber(); return; }
      if content[offset] == LBRACKET { r := ParseArray(); return; }
      if content[offset] == LBRACE { r := ParseObject(); return; }
      return None;
    }

    method ParseArray() returns (r: Option<Value>)
      requires offset < |content|
      modifies this
      ensures Matches(r, offset, P.ParseArray(content, old(offset), old(depth)))
      ensures r.Some? ==> depth == old(depth)
      decreases |content| - offset, 1
    {
      hide P.ParseElements, P.SkipWs;
      if depth >= P.NESTING_LIMIT { return None; }
      depth := depth + 1;
      if content[offset] != LBRACKET { return None; }
      offset := offset + 1;
      SkipWhitespace();
      if offset < |content| && content[offset] == RBRACKET {
        depth, offset := depth - 1, offset + 1;
        return Some(Array([]));
      }
      if offset >= |content| { offset := offset - 1; return None; }
      offset := offset - 1;
      var items := ParseElements();
      if items.None? { return None; }
      depth := depth - 1;
      return Some(Array(items.value));
    }

    /** The element of one turn of the loop in parse_array. */
    method ParseElement() returns (r: Option<Value>)
      requires offset < |content|
      modifies this
      ensures Matches(r, offset, P.ParseValue(content, P.SkipWs(content, old(offset) + 1), old(depth)))
      ensures r.Some? ==> depth == old(depth)
      ensures r.None? ==> P.ParseValue(content, P.SkipWs(content, old(offset) + 1), old(depth)).Fail?
      decreases |content| - offset, 0, 0
    {
      offset := offset + 1;
      SkipWhitespace();
      r := ParseValue();
    }

    /** The do-while loop of parse_array; the closing bracket is consumed here. */
    method ParseElements() returns (r: Option<seq<Value>>)
      requires offset < |content|
      modifies this
      ensures Matches(r, offset, P.ParseElements(content, old(offset), old(depth)))
      ensures r.Some? ==> depth == old(depth)
      decreases |content| - offset, 0, 1
    {
      hide P.ParseValue, P.SkipWs, P.ParseElements;
      ghost var spec := P.ParseElements(content, offset, depth);
      JoinedNothing(spec);
      var items := [];
      var more := true;
      while more
        invariant old(offset) <= offset <= |content| && depth == old(depth)
        invariant more ==> offset < |content|
        invariant spec == ElementsLeft(content, more, items, offset, depth)
        decreases more, |content| - offset
      {
        ghost var at := offset;
        var v := ParseElement();
        if v.None? { ElementsFail(content, at, old(depth)); return None; }
        ghost var n := offset;
        SkipWhitespace();
        ElementsTurn(content, at, depth, items, v.value, n, offset);
        more := offset < |content| && content[offset] == COMMA;
        items := items + [v.value];
      }
      if offset >= |content| || content[offset] != RBRACKET { return None; }
      offset := offset + 1;
      return Some(items);
    }

    method ParseObject() returns (r: Option<Value>)
      requires offset < |content|
      modifies this
      ensures Matches(r, offset, P.ParseObject(content, old(offset), old(depth)))
      ensures r.Some? ==> depth == old(depth)
      decreases |content| - offset, 1
    {
      hide P.ParseMembers, P.SkipWs;
      if depth >= P.NESTING_LIMIT { return None; }
      depth := depth + 1;
      if content[offset] != LBRACE { return None; }
      offset := offset + 1;
      SkipWhitespace();
      if offset < |content| && content[offset] == RBRACE {
        depth, offset := depth - 1, offset + 1;
        return Some(Object([]));
      }
      if offset >= |content| { offset := offset - 1; return None; }
      offset := offset - 1;
      var ms := ParseMembers();
      if ms.None? { return None; }
      depth := depth - 1;
      return Some(Object(ms.value));
    }

    /** Key, colon and value of one turn of the loop in parse_object. */
    method ParseMember() returns (r: Option<Member>)
      requires offset < |content|
      modifies this
      ensures Matches(r, offset, P.ParseMember(content, old(offset), old(depth)))
      ensures r.Some? ==> depth == old(depth)
      decreases |content| - offset, 0, 0
    {
      hide P.ParseValue, P.ParseString, P.SkipWs;
      if offset + 1 >= |content| { return None; }
      offset := offset + 1;
      SkipWhitespace();
      var key := ParseString();
      if key.None? { return None; }
      SkipWhitespace();
      if offset >= |content| || content[offset] != COLON { return None; }
      offset := offset + 1;
      SkipWhitespace();
      var v := ParseValue();
      if v.None? { return None; }
      return Some(Member(key.value, v.value));
    }

    method ParseMembers() returns (r: Option<seq<Member>>)
      requires offset < |content|
      modifies this
      ensures Matches(r, offset, P.ParseMembers(content, old(offset), old(depth)))
      ensures r.Some? ==> depth == old(depth)
      decreases |content| - offset, 0, 1
    {
      ghost var spec := P.ParseMembers(content, offset, depth);
      hide P.ParseMember, P.SkipWs, P.ParseMembers;
      JoinedNothing(spec);
      var ms := [];
      var more := true;
      while more
        invariant old(offset) <= offset <= |content| && depth == old(depth)
        invariant more ==> offset < |content|
        invariant spec == MembersLeft(content, more, ms, offset, depth)
        decreases more, |content| - offset
      {
        ghost var at := offset;
        var m := ParseMember();
        if m.None? { MembersFail(content, at, old(depth)); return None; }
        ghost var n := offset;
        SkipWhitespace();
        MembersTurn(content, at, depth, ms, m.value, n, offset);
        more := offset < |content| && content[offset] == COMMA;
        ms := ms + [m.value];
      }
      if offset >= |content| || content[offset] != RBRACE { return None; }
      offset := offset + 1;
      return Some(ms);
    }
  }

  /** cJSON_ParseWithLengthOpts */
  method ParseText(value: Text, requireNul: bool) returns (r: Option<Value>, end: nat)
    ensures r.None? == P.ParseBuffer(value, requireNul).Fail?
    ensures r.Some? ==> P.ParseBuffer(value, requireNul) == P.Ok(r.value, end)
  {
    var buffer := new ParseBuffer(value);
    if |value| > 4 && value[..3] == P.BOM { buffer.offset := 3; }
    buffer.SkipWhitespace();
    r := buffer.ParseValue();
    if r.Some? && requireNul {
      buffer.SkipWhitespace();
      if buffer.offset >= |value| || value[buffer.offset] != 0 { r := None; }
    }
    end := buffer.offset;
  }
}
