/** The printer as cJSON runs it: text written at an offset of a fixed or growing buffer. */
module JsonPrinter {
  import opened Bytes
  import opened JsonValue

  // ---- text without terminators ----

  lemma {:induction false} EscapeNulFree(s: Text)
    requires NulFree(s)
    ensures NulFree(Escape(s))
  {
    if s != [] {
      EscapeNulFree(s[1..]);
      hide EscapeByte;
    }
  }

  lemma IntTextNulFree(n: int)
    ensures NulFree(IntText(n))
  {
    hide NatText;
  }

  lemma ClosingNulFree(format: bool, depth: nat)
    ensures NulFree(Closing(format, depth)) && NulFree(Opening(format))
  {
  }

  lemma {:induction false} ValueTextNulFree(v: Value, format: bool, depth: nat)
    requires Printable(v)
    ensures NulFree(ValueText(v, format, depth))
    decreases v, 1
  {
    hide Tabs, IntText;
    match v
    case Null =>
    case Bool(_) =>
    case Number(d) => IntTextNulFree(ValueInt(d));
    case String(s) => hide Escape; EscapeNulFree(s);
    case Array(items) => hide ItemsText; ItemsTextNulFree(items, format, depth + 1);
    case Object(ms) =>
      hide MembersText, ValueText;
      MembersTextNulFree(ms, format, depth + 1);
      ObjectTextUnfold(ms, format, depth);
      ClosingNulFree(format, depth);
      hide Opening, Closing;
  }

  lemma {:induction false} ItemsTextNulFree(items: seq<Value>, format: bool, depth: nat)
    requires forall i :: 0 <= i < |items| ==> Printable(items[i])
    ensures NulFree(ItemsText(items, format, depth))
    decreases items, 0
  {
    if items != [] {
      ValueTextNulFree(items[0], format, depth);
      ItemsTextNulFree(items[1..], format, depth);
      hide ValueText;
    }
  }

  lemma PrefixNulFree(key: Text, format: bool, depth: nat)
    requires NulFree(key)
    ensures NulFree(MemberPrefix(key, format, depth)) && NulFree(StringText(key))
  {
    EscapeNulFree(key);
    hide Escape;
    assert NulFree(StringText(key));
    hide StringText;
  }

  lemma {:induction false} MembersTextNulFree(ms: seq<Member>, format: bool, depth: nat)
    requires Printable(Object(ms))
    ensures NulFree(MembersText(ms, format, depth))
    decreases ms, 0
  {
    if ms != [] {
      hide ValueText, MemberPrefix;
      ValueTextNulFree(ms[0].value, format, depth);
      MembersTextNulFree(ms[1..], format, depth);
      PrefixNulFree(ms[0].key, format, depth);
    }
  }

  /** Bytes that the escape of `b` adds. */
  function ExtraBytes(b: Byte): (n: nat)
    ensures n == |EscapeByte(b)| - 1
  {
    if b == QUOTE || b == BACKSLASH || b == 8 || b == 12 || b == 10 || b == 13 || b == 9 then 1
    else if b < 32 then 5
    else 0
  }

  lemma {:induction false} EscapeSnoc(s: Text, b: Byte)
    ensures Escape(s + [b]) == Escape(s) + EscapeByte(b)
  {
    hide EscapeByte;
    if s == [] {
      assert Escape([b]) == EscapeByte(b) + Escape([]);
    } else {
      assert (s + [b])[1..] == s[1..] + [b];
      EscapeSnoc(s[1..], b);
    }
  }

  /** First pass of print_string_ptr. */
  method CountEscapes(s: Text) returns (escapeCharacters: nat)
    ensures |Escape(s)| == |s| + escapeCharacters
    ensures escapeCharacters == 0 ==> Escape(s) == s
  {
    hide EscapeByte;
    escapeCharacters := 0;
    var i := 0;
    while i < |s|
      invariant 0 <= i <= |s|
      invariant |Escape(s[..i])| == i + escapeCharacters
      invariant escapeCharacters == 0 ==> Escape(s[..i]) == s[..i]
    {
      assert s[..i + 1] == s[..i] + [s[i]];
      EscapeSnoc(s[..i], s[i]);
      PlainByte(s[i]);
      escapeCharacters := escapeCharacters + ExtraBytes(s[i]);
      i := i + 1;
    }
    assert s[..i] == s;
  }

  lemma PlainByte(b: Byte)
    ensures ExtraBytes(b) == 0 ==> EscapeByte(b) == [b]
  {
  }

  // ---- unfolding the printed text from an index ----

  lemma ItemsUnfold(items: seq<Value>, i: nat, format: bool, depth: nat)
    requires i < |items|
    ensures ItemsText(items[i..], format, depth)
         == ValueText(items[i], format, depth) + ItemSeparator(items[i..], format)
            + ItemsText(items[i + 1..], format, depth)
  {
    hide ValueText;
    assert items[i..][1..] == items[i + 1..];
  }

  lemma ItemPrintable(items: seq<Value>, i: nat)
    requires i < |items| && Printable(Array(items))
    ensures Printable(items[i])
  {
  }

  lemma NoItemsText(items: seq<Value>, i: nat, format: bool, depth: nat)
    requires i == |items|
    ensures ItemsText(items[i..], format, depth) == []
  {
  }

  lemma ArrayTextUnfold(items: seq<Value>, format: bool, depth: nat)
    ensures ValueText(Array(items), format, depth) == [LBRACKET] + ItemsText(items, format, depth + 1) + [RBRACKET]
  {
  }

  lemma MembersUnfold(ms: seq<Member>, i: nat, format: bool, depth: nat)
    requires i < |ms|
    ensures MembersText(ms[i..], format, depth)
         == MemberPrefix(ms[i].key, format, depth) + ValueText(ms[i].value, format, depth)
            + MemberSuffix(ms[i..], format) + MembersText(ms[i + 1..], format, depth)
  {
    hide ValueText, MemberPrefix, MemberSuffix;
    assert ms[i..][1..] == ms[i + 1..];
  }

  lemma MemberPrintable(ms: seq<Member>, i: nat)
    requires i < |ms| && Printable(Object(ms))
    ensures NulFree(ms[i].key) && Printable(ms[i].value)
  {
  }

  lemma NoMembersText(ms: seq<Member>, i: nat, format: bool, depth: nat)
    requires i == |ms|
    ensures MembersText(ms[i..], format, depth) == []
  {
  }

  lemma Regroup4(done: Text, a: Text, b: Text, c: Text, rest: Text)
    ensures done + (a + b + c + rest) == (done + a + b + c) + rest
  {
  }

  lemma Regroup3(done: Text, a: Text, b: Text, c: Text)
    ensures done + (a + b + c) == done + a + b + c
  {
  }

  lemma Regroup(done: Text, a: Text, b: Text, rest: Text)
    ensures done + (a + b + rest) == (done + a + b) + rest
  {
  }

  class PrintBuffer {
    var buffer: array<Byte>
    var offset: nat
    var depth: nat
    const noalloc: bool
    const format: bool

    ghost predicate Valid()
      reads this`buffer, this`offset
    {
      buffer.Length <= INT_MAX && (offset < buffer.Length || (offset == 0 && buffer.Length == 0))
    }

    /** The length that the buffer can reach. */
    ghost function Capacity(): nat
      reads this`buffer, this`offset
    {
      if noalloc then buffer.Length else INT_MAX
    }

    /** Everything printed so far. */
    ghost function Done(): (t: Text)
      reads this`buffer, this`offset, buffer
      requires Valid()
      ensures |t| == offset
    {
      buffer[..offset]
    }

    /** A terminated text `t` stands in the buffer and the offset is inside it or at its end. */
    ghost predicate Terminated(t: Text)
      reads this`buffer, this`offset, buffer
    {
      offset <= |t| < buffer.Length && buffer[..|t|] == t && buffer[|t|] == 0
    }

    /** `print` with a growing buffer, `cJSON_PrintPreallocated` with a fixed one. */
    constructor (buffer: array<Byte>, noalloc: bool, format: bool)
      requires buffer.Length <= INT_MAX
      ensures this.buffer == buffer && offset == 0 && depth == 0
      ensures this.noalloc == noalloc && this.format == format && Valid()
    {
      this.buffer, this.noalloc, this.format := buffer, noalloc, format;
      offset, depth := 0, 0;
    }

    /** ensure: room for `needed` bytes and one more behind the offset. */
    method Ensure(needed: nat) returns (ok: bool)
      requires Valid()
      modifies this`buffer
      ensures Valid() && Capacity() == old(Capacity())
      ensures ok == (offset + needed + 1 <= Capacity())
      ensures ok ==> offset + needed + 1 <= buffer.Length && Done() == old(Done())
      ensures buffer == old(buffer) || (fresh(buffer) && !noalloc)
    {
      if buffer.Length > 0 && offset >= buffer.Length { return false; }
      if needed > INT_MAX { return false; }
      var total := needed + offset + 1;
      if total <= buffer.Length { return true; }
      if noalloc { return false; }
      var newSize;
      if total > INT_MAX / 2 {
        if total > INT_MAX { return false; }
        newSize := INT_MAX;
      } else {
        newSize := total * 2;
      }
      var newBuffer := new Byte[newSize];
      var i := 0;
      while i < offset
        invariant 0 <= i <= offset
        invariant newBuffer[..i] == buffer[..i]
        modifies newBuffer
      {
        newBuffer[i] := buffer[i];
        i := i + 1;
      }
      buffer := newBuffer;
      ok := true;
    }

    method Copy(t: Text)
      requires Valid() && offset + |t| <= buffer.Length
      modifies buffer
      ensures buffer[..offset + |t|] == old(buffer[..offset]) + t
    {
      var i := 0;
      while i < |t|
        invariant 0 <= i <= |t|
        invariant forall k :: 0 <= k < offset ==> buffer[k] == old(buffer[k])
        invariant forall k :: 0 <= k < i ==> buffer[offset + k] == t[k]
        modifies buffer
      {
        buffer[offset + i] := t[i];
        i := i + 1;
      }
    }

    /** Writes `t` behind the offset after asking for `needed` bytes, with or without a terminator,
        and with or without moving the offset over it. */
    method Emit(t: Text, needed: nat, terminate: bool, advance: bool) returns (ok: bool)
      requires Valid() && |t| <= needed
      modifies this`buffer, this`offset, buffer
      ensures Valid() && Capacity() == old(Capacity())
      ensures ok == (old(offset) + needed + 1 <= Capacity())
      ensures ok && advance ==> Done() == old(Done()) + t
      ensures ok && terminate ==> Terminated(old(Done()) + t)
      ensures offset == if ok && advance then old(offset) + |t| else old(offset)
      ensures buffer == old(buffer) || (fresh(buffer) && !noalloc)
    {
      ghost var done := Done();
      ok := Ensure(needed);
      if !ok { return; }
      Copy(t);
      if terminate { buffer[offset + |t|] := 0; }
      assert buffer[..offset + |t|] == done + t;
      if advance { offset := offset + |t|; }
    }

    /** update_offset: to the end of the C string at the offset. */
    method UpdateOffset(ghost t: Text)
      requires Valid() && Terminated(t) && NulFree(t[offset..])
      modifies this`offset
      ensures Valid() && offset == |t| && Done() == t
    {
      NextByte(t);
      while buffer[offset] != 0
        invariant offset <= |t| && Terminated(t) && NulFree(t[offset..])
        invariant offset < |t| ==> buffer[offset] != 0
        decreases |t| - offset
      {
        assert t[offset + 1..] == t[offset..][1..];
        offset := offset + 1;
        NextByte(t);
      }
    }

    lemma NextByte(t: Text)
      requires Terminated(t) && NulFree(t[offset..])
      ensures offset < |t| ==> buffer[offset] != 0
    {
      if offset < |t| {
        assert buffer[offset] == buffer[..|t|][offset] == t[offset] == t[offset..][0];
      }
    }

    /** print_string_ptr */
    method PrintString(s: Text) returns (ok: bool)
      requires Valid() && NulFree(s)
      modifies this`buffer, this`offset, buffer
      ensures Valid() && Capacity() == old(Capacity()) && offset == old(offset)
      ensures ok == (old(offset) + |StringText(s)| + 2 <= Capacity())
      ensures ok ==> Terminated(old(Done()) + StringText(s))
      ensures buffer == old(buffer) || (fresh(buffer) && !noalloc)
    {
      var escapeCharacters := CountEscapes(s);
      var outputLength := |s| + escapeCharacters;
      var text := if escapeCharacters == 0 then s else Escape(s);
      hide Escape;
      ok := Emit([QUOTE] + text + [QUOTE], outputLength + 3, true, false);
    }

    method PrintValue(v: Value) returns (ok: bool)
      requires Valid() && Printable(v)
      modifies this, buffer
      ensures Valid() && Capacity() == old(Capacity())
      ensures ok == (old(offset) + |ValueText(v, format, old(depth))| + 2 <= Capacity())
      ensures ok ==>
              old(offset) <= offset && depth == old(depth) && Terminated(old(Done()) + ValueText(v, format, depth))
      ensures buffer == old(buffer) || (fresh(buffer) && !noalloc)
      decreases v, 1
    {
      match v {
        case Null => ok := Emit(NULL_TEXT, 5, true, false);
        case Bool(b) =>
          if b { ok := Emit(TRUE_TEXT, 5, true, false); } else { ok := Emit(FALSE_TEXT, 6, true, false); }
        case Number(d) =>
          var text := IntText(ValueInt(d));
          ok := Emit(text, |text| + 1, true, true);
        case String(s) => ok := PrintString(s);
        case Array(items) => ok := PrintArray(items);
        case Object(ms) => ok := PrintObject(ms);
      }
    }

    method PrintArray(items: seq<Value>) returns (ok: bool)
      requires Valid() && Printable(Array(items))
      modifies this, buffer
      ensures Valid() && Capacity() == old(Capacity())
      ensures ok == (old(offset) + |ValueText(Array(items), format, old(depth))| + 2 <= Capacity())
      ensures ok ==>
              old(offset) <= offset && depth == old(depth)
              && Terminated(old(Done()) + ValueText(Array(items), format, depth))
      ensures buffer == old(buffer) || (fresh(buffer) && !noalloc)
      decreases items, 0, 2
    {
      hide Printable, ValueText, ItemsText, Done, Terminated;
      ArrayTextUnfold(items, format, depth);
      Regroup3(Done(), [LBRACKET], ItemsText(items, format, depth + 1), [RBRACKET]);
      ok := Emit([LBRACKET], 1, false, true);
      if !ok { return; }
      depth := depth + 1;
      ok := PrintItems(items);
      if !ok { return; }
      ok := Emit([RBRACKET], 2, true, false);
      depth := depth - 1;
    }

    /** The loop in print_array. */
    method PrintItems(items: seq<Value>) returns (ok: bool)
      requires Valid() && Printable(Array(items))
      modifies this, buffer
      ensures Valid() && Capacity() == old(Capacity())
      ensures ok == (items == [] || old(offset) + |ItemsText(items, format, old(depth))| + 2 <= Capacity())
      ensures ok ==> depth == old(depth) && Done() == old(Done()) + ItemsText(items, format, depth)
      ensures buffer == old(buffer) || (fresh(buffer) && !noalloc)
      decreases items, 0, 1
    {
      hide Printable, ValueText, ItemsText;
      ghost var goal := Done() + ItemsText(items, format, depth);
      var i := 0;
      ok := true;
      assert items[0..] == items;
      NoItemsText(items, |items|, format, depth);
      while i < |items|
        invariant 0 <= i <= |items| && depth == old(depth) && ok
        invariant i > 0 ==> offset + 2 <= Capacity()
        invariant Valid() && Capacity() == old(Capacity())
        invariant buffer == old(buffer) || (fresh(buffer) && !noalloc)
        invariant goal == Done() + ItemsText(items[i..], format, depth)
      {
        ItemsUnfold(items, i, format, depth);
        Regroup(Done(), ValueText(items[i], format, depth), ItemSeparator(items[i..], format),
                ItemsText(items[i + 1..], format, depth));
        ItemPrintable(items, i);
        ok := PrintItem(items, i);
        if !ok { return; }
        i := i + 1;
      }
      assert Done() + [] == Done();
    }

    /** One turn of the loop in print_array. */
    method PrintItem(items: seq<Value>, i: nat) returns (ok: bool)
      requires i < |items| && Valid() && Printable(items[i])
      modifies this, buffer
      ensures Valid() && Capacity() == old(Capacity())
      ensures ok == (old(offset) + |ValueText(items[i], format, old(depth))|
                     + |ItemSeparator(items[i..], format)| + 2 <= Capacity())
      ensures ok ==> depth == old(depth)
      ensures ok ==> Done() == old(Done()) + ValueText(items[i], format, depth) + ItemSeparator(items[i..], format)
      ensures buffer == old(buffer) || (fresh(buffer) && !noalloc)
      decreases items, 0, 0
    {
      ghost var done, vt := Done(), ValueText(items[i], format, depth);
      ValueTextNulFree(items[i], format, depth);
      hide Printable, ValueText;
      ok := PrintValue(items[i]);
      if !ok { return; }
      UpdateOffset(done + vt);
      if i + 1 < |items| {
        ok := Emit(if format then [COMMA, SPACE] else [COMMA], if format then 3 else 2, true, true);
      } else {
        assert done + vt + [] == done + vt;
      }
    }

    method PrintObject(ms: seq<Member>) returns (ok: bool)
      requires Valid() && Printable(Object(ms))
      modifies this, buffer
      ensures Valid() && Capacity() == old(Capacity())
      ensures ok == (old(offset) + |ValueText(Object(ms), format, old(depth))| + 2 <= Capacity())
      ensures ok ==>
              old(offset) <= offset && depth == old(depth)
              && Terminated(old(Done()) + ValueText(Object(ms), format, depth))
      ensures buffer == old(buffer) || (fresh(buffer) && !noalloc)
      decreases ms, 0, 3
    {
      hide Printable, ValueText, MembersText, Opening, Closing, Done, Terminated;
      ObjectTextUnfold(ms, format, depth);
      Regroup3(Done(), Opening(format), MembersText(ms, format, depth + 1), Closing(format, depth));
      ok := Emit(Opening(format), if format then 3 else 2, false, true);
      if !ok { return; }
      depth := depth + 1;
      ok := PrintMembers(ms);
      if !ok { return; }
      ok := Emit(Closing(format, depth - 1), if format then depth + 1 else 2, true, false);
      depth := depth - 1;
    }

    /** The loop in print_object. */
    method PrintMembers(ms: seq<Member>) returns (ok: bool)
      requires Valid() && Printable(Object(ms))
      modifies this, buffer
      ensures Valid() && Capacity() == old(Capacity())
      ensures ok == (ms == [] || old(offset) + |MembersText(ms, format, old(depth))| + 2 <= Capacity())
      ensures ok ==> depth == old(depth) && Done() == old(Done()) + MembersText(ms, format, depth)
      ensures buffer == old(buffer) || (fresh(buffer) && !noalloc)
      decreases ms, 0, 2
    {
      hide Printable, ValueText, MembersText, MemberPrefix, MemberSuffix;
      ghost var goal := Done() + MembersText(ms, format, depth);
      var i := 0;
      ok := true;
      assert ms[0..] == ms;
      NoMembersText(ms, |ms|, format, depth);
      while i < |ms|
        invariant 0 <= i <= |ms| && depth == old(depth) && ok
        invariant i > 0 ==> offset + 2 <= Capacity()
        invariant Valid() && Capacity() == old(Capacity())
        invariant buffer == old(buffer) || (fresh(buffer) && !noalloc)
        invariant goal == Done() + MembersText(ms[i..], format, depth)
      {
        MembersUnfold(ms, i, format, depth);
        Regroup4(Done(), MemberPrefix(ms[i].key, format, depth), ValueText(ms[i].value, format, depth),
                 MemberSuffix(ms[i..], format), MembersText(ms[i + 1..], format, depth));
        MemberPrintable(ms, i);
        ok := PrintMember(ms, i);
        if !ok { return; }
        i := i + 1;
      }
      assert Done() + [] == Done();
    }

    /** One turn of the loop in print_object. */
    method PrintMember(ms: seq<Member>, i: nat) returns (ok: bool)
      requires i < |ms| && Valid() && NulFree(ms[i].key) && Printable(ms[i].value)
      modifies this, buffer
      ensures Valid() && Capacity() == old(Capacity())
      ensures ok == (old(offset) + |MemberPrefix(ms[i].key, format, old(depth))|
                     + |ValueText(ms[i].value, format, old(depth))|
                     + |MemberSuffix(ms[i..], format)| + 2 <= Capacity())
      ensures ok ==> depth == old(depth)
      ensures ok ==> Done() == old(Done()) + MemberPrefix(ms[i].key, format, depth)
                              + ValueText(ms[i].value, format, depth) + MemberSuffix(ms[i..], format)
      ensures buffer == old(buffer) || (fresh(buffer) && !noalloc)
      decreases ms, 0, 1
    {
      hide Printable, ValueText, MemberPrefix;
      ok := PrintKey(ms[i].key);
      if !ok { return; }
      ghost var done, vt := Done(), ValueText(ms[i].value, format, depth);
      ValueTextNulFree(ms[i].value, format, depth);
      ok := PrintValue(ms[i].value);
      if !ok { return; }
      assert (done + vt)[|done|..] == vt;
      assert NulFree((done + vt)[offset..]);
      UpdateOffset(done + vt);
      var suffix := (if i + 1 < |ms| then [COMMA] else []) + (if format then [NEWLINE] else []);
      ok := Emit(suffix, |suffix| + 1, true, true);
    }

    method PrintKey(key: Text) returns (ok: bool)
      requires Valid() && NulFree(key)
      modifies this`buffer, this`offset, buffer
      ensures Valid() && Capacity() == old(Capacity())
      ensures ok == (old(offset) + |MemberPrefix(key, format, depth)| + 1 <= Capacity())
      ensures ok ==> Done() == old(Done()) + MemberPrefix(key, format, depth)
      ensures buffer == old(buffer) || (fresh(buffer) && !noalloc)
    {
      hide StringText, Done;
      ghost var tabs := if format then Tabs(depth) else [];
      ghost var colon := if format then [COLON, TAB] else [COLON];
      ghost var text := StringText(key);
      Regroup3(Done(), tabs, text, colon);
      if format {
        ok := Emit(Tabs(depth), depth, false, true);
        if !ok { return; }
      }
      assert Done() == old(Done()) + tabs;
      PrefixNulFree(key, format, depth);
      ghost var done := Done();
      ok := PrintString(key);
      if !ok { return; }
      assert (done + text)[offset..] == text;
      UpdateOffset(done + text);
      ok := Emit(if format then [COLON, TAB] else [COLON], if format then 2 else 1, false, true);
    }
  }

  /** cJSON_PrintPreallocated: succeeds exactly when the buffer has two bytes more than the text,
      and then holds the text and its terminator. */
  method PrintPreallocated(v: Value, buffer: array<Byte>, format: bool) returns (ok: bool)
    requires Printable(v) && buffer.Length <= INT_MAX
    modifies buffer
    ensures ok == (|ValueText(v, format, 0)| + 2 <= buffer.Length)
    ensures ok ==> buffer[..|ValueText(v, format, 0)| + 1] == ValueText(v, format, 0) + [0]
  {
    hide Printable, ValueText;
    var p := new PrintBuffer(buffer, true, format);
    assert p.Done() == [];
    ghost var t := ValueText(v, format, 0);
    ok := p.PrintValue(v);
    if ok {
      assert [] + t == t;
      assert buffer[..|t| + 1] == buffer[..|t|] + [buffer[|t|]];
    }
  }

  /** print, as cJSON_Print and cJSON_PrintUnformatted call it, when memory is available. */
  method PrintGrowing(v: Value, format: bool) returns (r: Option<Text>)
    requires Printable(v)
    ensures r == if |ValueText(v, format, 0)| + 2 <= INT_MAX then Some(ValueText(v, format, 0)) else None
  {
    hide Printable, ValueText;
    var buffer := new Byte[256];
    var p := new PrintBuffer(buffer, false, format);
    ghost var t := ValueText(v, format, 0);
    assert p.Done() == [];
    ValueTextNulFree(v, format, 0);
    var ok := p.PrintValue(v);
    if !ok { return None; }
    assert [] + t == t;
    assert NulFree(t[p.offset..]);
    p.UpdateOffset(t);
    r := Some(p.buffer[..p.offset]);
  }
}
