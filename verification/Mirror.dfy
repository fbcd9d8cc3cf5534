/** The shared JSON state of one device (json_handler.c): default, counter, message, freshness. */
module Mirror {
  import opened Bytes
  import opened JsonValue
  import opened JsonParser
  import JsonRoundTrip
  import JsonPrinter
  import JsonCompare

  const DEFAULT_UPDATE_COUNT := 1
  const JSON_PROTOCOL_VERSION := 1
  const MAX_JSON_BUF_SIZE := 2048
  const HEADER_SIZE := 12
  /** Third argument of cJSON_PrintPreallocated in json_prep_get_counter_value. */
  const PRINT_LENGTH := MAX_JSON_BUF_SIZE - 5 - HEADER_SIZE

  /** The buffer for the server's name. */
  const NAME_SIZE := 64

  // ---- the counter ----

  function ToLower(b: Byte): Byte { if 65 <= b <= 90 then b + 32 else b }

  /** case_insensitive_strcmp() == 0 */
  predicate SameKey(a: Text, b: Text) {
    |a| == |b| && forall i :: 0 <= i < |a| ==> ToLower(a[i]) == ToLower(b[i])
  }

  const CAPITALS := "ABCDEFGHIJKLMNOPQRSTUVWXYZ"
  const SMALL_LETTERS := "abcdefghijklmnopqrstuvwxyz"

  /** The same byte, or the same letter of the alphabet in the other case. */
  predicate SameLetter(a: Byte, b: Byte) {
    a == b || exists i: nat :: i < 26 && (BothCases(a, b, i) || BothCases(b, a, i))
  }

  predicate BothCases(a: Byte, b: Byte, i: nat)
    requires i < 26
  {
    a == CAPITALS[i] as int && b == SMALL_LETTERS[i] as int
  }

  lemma Alphabet(a: Byte, b: Byte, i: nat)
    requires i < 26
    ensures BothCases(a, b, i) <==> a == 65 + i && b == 97 + i
  {
    assert i == 0 || i == 1 || i == 2 || i == 3 || i == 4 || i == 5 || i == 6 || i == 7 || i == 8 || i == 9 || i == 10
        || i == 11 || i == 12 || i == 13 || i == 14 || i == 15 || i == 16 || i == 17 || i == 18 || i == 19 || i == 20
        || i == 21 || i == 22 || i == 23 || i == 24 || i == 25;
  }

  lemma LettersLower(a: Byte, b: Byte)
    ensures ToLower(a) == ToLower(b) <==> SameLetter(a, b)
  {
    hide BothCases;
    if ToLower(a) == ToLower(b) && a != b {
      Alphabet(a, b, ToLower(a) - 97);
      Alphabet(b, a, ToLower(a) - 97);
    }
    if a != b && SameLetter(a, b) {
      var i: nat :| i < 26 && (BothCases(a, b, i) || BothCases(b, a, i));
      Alphabet(a, b, i);
      Alphabet(b, a, i);
    }
  }

  /** Names are compared without regard to case, and with regard to everything else. */
  lemma NamesIgnoreCase(a: Text, b: Text)
    ensures SameKey(a, b) <==> |a| == |b| && forall i :: 0 <= i < |a| ==> SameLetter(a[i], b[i])
  {
    hide ToLower, SameLetter;
    forall i | 0 <= i < |a| && i < |b| ensures ToLower(a[i]) == ToLower(b[i]) <==> SameLetter(a[i], b[i]) {
      LettersLower(a[i], b[i]);
    }
  }

  /** Index of the first member with that name, or the number of members. */
  function FindKey(ms: seq<Member>, name: Text): (i: nat)
    ensures i <= |ms|
    ensures i < |ms| ==> SameKey(name, ms[i].key)
    ensures forall k :: 0 <= k < i ==> !SameKey(name, ms[k].key)
  {
    if ms == [] || SameKey(name, ms[0].key) then 0 else 1 + FindKey(ms[1..], name)
  }

  const COUNT_KEY: Text := Ascii("update_count")

  function CounterIndex(m: Value): (r: Option<nat>)
    ensures r.Some? ==> m.Object? && r.value < |m.members| && m.members[r.value].value.Number?
  {
    if !m.Object? then None
    else
      var i := FindKey(m.members, COUNT_KEY);
      if i < |m.members| && m.members[i].value.Number? then Some(i) else None
  }

  /** get_mirror_update_count on a mirror that exists. */
  function Count(m: Value): int {
    match CounterIndex(m)
    case None => DEFAULT_UPDATE_COUNT
    case Some(i) => ValueInt(m.members[i].value.d)
  }

  /** inc_mirror_counter */
  function Increment(m: Value): Value
    requires Count(m) < INT_MAX
  {
    match CounterIndex(m)
    case None => m
    case Some(i) => Object(m.members[i := m.members[i].(value := Number((Count(m) + 1) as real))])
  }

  /** A mirror that can be exchanged: an object that prints and parses back, with a counter from 1. */
  ghost predicate Sound(m: Value) {
    m.Object? && Printable(m) && Nesting(m) <= NESTING_LIMIT && CounterIndex(m).Some? && Count(m) >= 1
  }

  /** Its text fits the message buffer. */
  predicate Fits(m: Value) {
    |ValueText(m, false, 0)| + 2 <= PRINT_LENGTH
  }

  lemma {:induction false} FindKeyAfterUpdate(ms: seq<Member>, name: Text, i: nat, v: Value)
    requires i == FindKey(ms, name) && i < |ms|
    ensures FindKey(ms[i := ms[i].(value := v)], name) == i
    decreases |ms|
  {
    var ns := ms[i := ms[i].(value := v)];
    if i > 0 {
      assert ns[1..] == ms[1..][i - 1 := ms[1..][i - 1].(value := v)];
      FindKeyAfterUpdate(ms[1..], name, i - 1, v);
    }
  }

  lemma {:induction false} NestingAfterUpdate(ms: seq<Member>, i: nat, v: Value)
    requires i < |ms| && Nesting(v) <= Nesting(ms[i].value)
    ensures NestingOfMembers(ms[i := ms[i].(value := v)]) <= NestingOfMembers(ms)
    decreases |ms|
  {
    var ns := ms[i := ms[i].(value := v)];
    if i == 0 {
      assert ns[1..] == ms[1..];
    } else {
      assert ns[1..] == ms[1..][i - 1 := ms[1..][i - 1].(value := v)];
      NestingAfterUpdate(ms[1..], i - 1, v);
    }
  }

  /** An increment adds one and keeps the mirror exchangeable. */
  lemma IncrementAddsOne(m: Value)
    requires Sound(m) && Count(m) < INT_MAX
    ensures Sound(Increment(m)) && Count(Increment(m)) == Count(m) + 1
  {
    var i := CounterIndex(m).value;
    var v := Number((Count(m) + 1) as real);
    FindKeyAfterUpdate(m.members, COUNT_KEY, i, v);
    NestingAfterUpdate(m.members, i, v);
    hide FindKey, NestingOfMembers;
    var n := Increment(m);
    assert CounterIndex(n) == Some(i) && n.members[i].value == v;
    assert Nesting(n) <= Nesting(m);
    assert Printable(n) by {
      forall k | 0 <= k < |n.members| ensures NulFree(n.members[k].key) && Printable(n.members[k].value) {
        if k != i { assert n.members[k] == m.members[k]; }
      }
    }
  }

  /** Different JSON of one version stays different. */
  lemma IncrementInjective(a: Value, b: Value)
    requires Sound(a) && Sound(b) && Count(a) == Count(b) < INT_MAX && Increment(a) == Increment(b)
    ensures a == b
  {
    var i, j, v := CounterIndex(a).value, CounterIndex(b).value, Number((Count(a) + 1) as real);
    FindKeyAfterUpdate(a.members, COUNT_KEY, i, v);
    FindKeyAfterUpdate(b.members, COUNT_KEY, j, v);
    assert Printable(a.members[i].value) && Printable(b.members[j].value);
    hide FindKey, Printable, Nesting;
    var ms := a.members[i := a.members[i].(value := v)];
    assert ms == b.members[j := b.members[j].(value := v)] && i == j;
    assert a.members[i].key == ms[i].key == b.members[i].key;
    assert forall k :: 0 <= k < |ms| && k != i ==> a.members[k] == ms[k] == b.members[k];
    assert a.members == b.members;
  }

  // ---- the buddy list ----

  const BUDDY_KEY: Text := Ascii("buddy_ip")

  /** The strings among some items. */
  function Strings(items: seq<Value>): (ts: seq<Text>) {
    if items == [] then []
    else (if items[0].String? then [items[0].s] else []) + Strings(items[1..])
  }

  function MemberValues(ms: seq<Member>): seq<Value> {
    seq(|ms|, i requires 0 <= i < |ms| => ms[i].value)
  }

  /** The names that tcp_client_json_update_buddies goes over: the items below the member "buddy_ip". */
  function ListedNames(m: Value): seq<Text> {
    if !m.Object? then []
    else
      match JsonCompare.Lookup(m.members, BUDDY_KEY)
      case Some(Array(items)) => Strings(items)
      case Some(Object(ms)) => Strings(MemberValues(ms))
      case _ => []
  }

  lemma {:induction false} StringsAppend(a: seq<Value>, b: seq<Value>)
    ensures Strings(a + b) == Strings(a) + Strings(b)
  {
    if a == [] {
      assert [] + b == b;
    } else {
      assert (a + b)[1..] == a[1..] + b;
      StringsAppend(a[1..], b);
    }
  }

  lemma StringsOne(v: Value)
    ensures Strings([v]) == if v.String? then [v.s] else []
  {
    assert [v][1..] == [];
  }

  lemma {:induction false} StringsHold(items: seq<Value>, name: Text)
    ensures name in Strings(items) <==> String(name) in items
  {
    if items != [] {
      StringsHold(items[1..], name);
      assert items == [items[0]] + items[1..];
    }
  }

  lemma {:induction false} StringsInOrder(items: seq<Value>)
    requires forall k :: 0 <= k < |items| ==> items[k].String?
    ensures |Strings(items)| == |items| && forall k :: 0 <= k < |items| ==> Strings(items)[k] == items[k].s
  {
    if items != [] { StringsInOrder(items[1..]); }
  }

  /** The names are the strings of the array in the first member "buddy_ip", in order and with repetitions. */
  lemma {:induction false} ListedAre(m: Value, i: nat, items: seq<Value>)
    requires m.Object? && i < |m.members| && m.members[i] == Member(Ascii("buddy_ip"), Array(items))
    requires forall k :: 0 <= k < i ==> m.members[k].key != Ascii("buddy_ip")
    ensures forall name: Text :: name in ListedNames(m) <==> String(name) in items
    ensures (forall k :: 0 <= k < |items| ==> items[k].String?) ==>
              |ListedNames(m)| == |items| && forall k :: 0 <= k < |items| ==> ListedNames(m)[k] == items[k].s
  {
    FirstMember(m.members, i, BUDDY_KEY);
    hide Ascii;
    forall name: Text ensures name in Strings(items) <==> String(name) in items { StringsHold(items, name); }
    if forall k :: 0 <= k < |items| ==> items[k].String? { StringsInOrder(items); }
  }

  lemma {:induction false} FirstMember(ms: seq<Member>, i: nat, key: Text)
    requires i < |ms| && ms[i].key == key && forall k :: 0 <= k < i ==> ms[k].key != key
    ensures JsonCompare.Lookup(ms, key) == Some(ms[i].value)
  {
    if i > 0 { FirstMember(ms[1..], i - 1, key); }
  }

  /** The names that a connection is opened to: the own one is left out. */
  function Others(list: seq<Text>, own: Text): (ns: seq<Text>) {
    if list == [] then [] else (if list[0] != own then [list[0]] else []) + Others(list[1..], own)
  }

  lemma {:induction false} OthersAppend(a: seq<Text>, b: seq<Text>, own: Text)
    ensures Others(a + b, own) == Others(a, own) + Others(b, own)
  {
    if a == [] {
      assert [] + b == b;
    } else {
      assert (a + b)[1..] == a[1..] + b;
      OthersAppend(a[1..], b, own);
    }
  }

  lemma {:induction false} LookupAfterUpdate(ms: seq<Member>, key: Text, i: nat, v: Value)
    requires i < |ms| && ms[i].key != key
    ensures JsonCompare.Lookup(ms[i := ms[i].(value := v)], key) == JsonCompare.Lookup(ms, key)
    decreases |ms|
  {
    var ns := ms[i := ms[i].(value := v)];
    if i == 0 {
      assert ns[1..] == ms[1..];
    } else {
      assert ns[1..] == ms[1..][i - 1 := ms[1..][i - 1].(value := v)];
      LookupAfterUpdate(ms[1..], key, i - 1, v);
    }
  }

  /** An increment leaves the buddy list as it is. */
  lemma IncrementKeepsList(m: Value)
    requires Count(m) < INT_MAX
    ensures ListedNames(Increment(m)) == ListedNames(m)
  {
    hide JsonCompare.Lookup, Strings;
    if CounterIndex(m).Some? {
      var i := CounterIndex(m).value;
      assert SameKey(COUNT_KEY, m.members[i].key) && |COUNT_KEY| != |BUDDY_KEY|;
      LookupAfterUpdate(m.members, BUDDY_KEY, i, Number((Count(m) + 1) as real));
    }
  }

  // ---- the default mirror ----

  function Entry(key: string, v: Value): Member { Member(Ascii(key), v) }
  function StringValue(s: string): Value { String(Ascii(s)) }

  const LONG_STRING := "This is a very long " + "string to test large json " + "sending. 0123456789, 1123456789, "
                       + "2123456789, 3123456789, 4123456789"

  function DefaultMirror(serverName: Text): Value {
    Object([
      Entry("json_version", StringValue("1.0")),
      Entry("update_count", Number(1.0)),
      Entry("server_version", StringValue("1.0")),
      Entry("buddy_ip", Array([StringValue("george.local"), StringValue("freddy.local")])),
      Entry("server_ip", String(serverName)),
      Entry("well_delay", StringValue("1")),
      Entry("skip_days", StringValue("0")),
      Entry("junk1", StringValue(LONG_STRING)),
      Entry("junk2", StringValue(LONG_STRING)),
      Entry("junk3", StringValue(LONG_STRING))])
  }

  lemma DefaultIsSound(serverName: Text)
    requires NulFree(serverName)
    ensures Sound(DefaultMirror(serverName)) && Count(DefaultMirror(serverName)) == DEFAULT_UPDATE_COUNT
    ensures |serverName| < NAME_SIZE ==> Fits(DefaultMirror(serverName))
  {
    hide Fits;
    var m := DefaultMirror(serverName);
    var ms := m.members;
    DefaultCounter(serverName);
    DefaultPrintable(serverName);
    DefaultNesting(serverName);
    if |serverName| < NAME_SIZE { DefaultFits(serverName); }
  }

  predicate NoNul(s: string) {
    forall i :: 0 <= i < |s| ==> s[i] != '\0'
  }

  ghost predicate MemberPrintable(m: Member) {
    NulFree(m.key) && Printable(m.value)
  }

  lemma EntryPrintable(key: string, v: Value)
    requires NoNul(key) && Printable(v)
    ensures MemberPrintable(Entry(key, v))
  {
    hide Printable;
  }

  lemma StringPrintable(s: string)
    requires NoNul(s)
    ensures Printable(StringValue(s))
  {
  }

  lemma LongStringNoNul()
    ensures NoNul(LONG_STRING)
  {
    assert NoNul("This is a very long ");
    assert NoNul("string to test large json ");
    assert NoNul("sending. 0123456789, 1123456789, ");
    assert NoNul("2123456789, 3123456789, 4123456789");
  }

  lemma BuddiesPrintable()
    ensures Printable(Array([StringValue("george.local"), StringValue("freddy.local")]))
  {
    StringPrintable("george.local");
    StringPrintable("freddy.local");
    hide StringValue;
  }

  lemma FirstEntriesPrintable(serverName: Text)
    requires NulFree(serverName)
    ensures MemberPrintable(Entry("json_version", StringValue("1.0")))
    ensures MemberPrintable(Entry("update_count", Number(1.0)))
    ensures MemberPrintable(Entry("server_version", StringValue("1.0")))
    ensures MemberPrintable(Entry("buddy_ip", Array([StringValue("george.local"), StringValue("freddy.local")])))
    ensures MemberPrintable(Entry("server_ip", String(serverName)))
  {
    StringPrintable("1.0");
    BuddiesPrintable();
    assert Printable(String(serverName)) && Printable(Number(1.0));
    hide Printable, Ascii, Entry, StringValue, MemberPrintable;
    EntryPrintable("json_version", StringValue("1.0"));
    EntryPrintable("update_count", Number(1.0));
    EntryPrintable("server_version", StringValue("1.0"));
    EntryPrintable("buddy_ip", Array([StringValue("george.local"), StringValue("freddy.local")]));
    EntryPrintable("server_ip", String(serverName));
  }

  lemma LastEntriesPrintable()
    ensures MemberPrintable(Entry("well_delay", StringValue("1")))
    ensures MemberPrintable(Entry("skip_days", StringValue("0")))
    ensures MemberPrintable(Entry("junk1", StringValue(LONG_STRING)))
    ensures MemberPrintable(Entry("junk2", StringValue(LONG_STRING)))
    ensures MemberPrintable(Entry("junk3", StringValue(LONG_STRING)))
  {
    StringPrintable("1");
    StringPrintable("0");
    LongStringNoNul();
    StringPrintable(LONG_STRING);
    hide Printable, Ascii, Entry, StringValue, MemberPrintable;
    EntryPrintable("well_delay", StringValue("1"));
    EntryPrintable("skip_days", StringValue("0"));
    EntryPrintable("junk1", StringValue(LONG_STRING));
    EntryPrintable("junk2", StringValue(LONG_STRING));
    EntryPrintable("junk3", StringValue(LONG_STRING));
  }

  lemma DefaultPrintable(serverName: Text)
    requires NulFree(serverName)
    ensures Printable(DefaultMirror(serverName))
  {
    hide Printable, Ascii, Entry, StringValue, MemberPrintable;
    FirstEntriesPrintable(serverName);
    LastEntriesPrintable();
    AllPrintable(DefaultMirror(serverName).members);
  }

  lemma AllPrintable(ms: seq<Member>)
    requires forall k :: 0 <= k < |ms| ==> MemberPrintable(ms[k])
    ensures Printable(Object(ms))
  {
  }

  lemma {:induction false} FlatNesting(ms: seq<Member>)
    requires forall k :: 0 <= k < |ms| ==> Nesting(ms[k].value) <= 1
    ensures NestingOfMembers(ms) <= 1
  {
    if ms != [] { FlatNesting(ms[1..]); }
  }

  lemma DefaultNesting(serverName: Text)
    ensures Nesting(DefaultMirror(serverName)) <= 2
  {
    var ms := DefaultMirror(serverName).members;
    assert Nesting(ms[3].value) <= 1;
    FlatNesting(ms);
  }

  // ---- length of the default text ----

  lemma {:induction false} EscapeBound(s: Text)
    ensures |Escape(s)| <= 6 * |s|
  {
    if s != [] { EscapeBound(s[1..]); }
  }

  /** Bytes that need no escape. */
  ghost predicate Plain(s: string) {
    forall i :: 0 <= i < |s| ==> 32 <= s[i] as int < 127 && s[i] != '\"' && s[i] != '\\'
  }

  lemma {:induction false} PlainEscape(s: Text)
    requires forall i :: 0 <= i < |s| ==> 32 <= s[i] < 127 && s[i] != QUOTE && s[i] != BACKSLASH
    ensures |Escape(s)| == |s|
  {
    if s != [] { PlainEscape(s[1..]); }
  }

  lemma LongStringLength()
    ensures |StringText(Ascii(LONG_STRING))| == 115
  {
    hide Escape;
    LongStringPlain();
    PlainEscape(Ascii(LONG_STRING));
  }

  lemma LongStringPlain()
    ensures Plain(LONG_STRING) && |LONG_STRING| == 113
  {
    hide Plain;
    FirstWordsPlain();
    LastWordsPlain();
    PlainJoin("This is a very long ", "string to test large json ");
    PlainJoin("This is a very long " + "string to test large json ", "sending. 0123456789, 1123456789, ");
    PlainJoin("This is a very long " + "string to test large json " + "sending. 0123456789, 1123456789, ",
              "2123456789, 3123456789, 4123456789");
  }

  lemma FirstWordsPlain()
    ensures Plain("This is a very long ") && Plain("string to test large json ")
  {
  }

  lemma LastWordsPlain()
    ensures Plain("sending. 0123456789, 1123456789, ") && Plain("2123456789, 3123456789, 4123456789")
  {
  }

  lemma PlainJoin(a: string, b: string)
    requires Plain(a) && Plain(b)
    ensures Plain(a + b)
  {
  }

  /** Length of one member's text in an object on the top level. */
  ghost function MemberLength(m: Member): nat {
    |MemberPrefix(m.key, false, 1)| + |ValueText(m.value, false, 1)| + 1
  }

  ghost function Total(limits: seq<nat>): nat {
    if limits == [] then 0 else limits[0] + Total(limits[1..])
  }

  lemma {:induction false} MembersBound(ms: seq<Member>, limits: seq<nat>)
    requires |limits| == |ms| && forall i :: 0 <= i < |ms| ==> MemberLength(ms[i]) <= limits[i]
    ensures |MembersText(ms, false, 1)| <= Total(limits)
  {
    hide ValueText, MemberPrefix;
    if ms != [] { MembersBound(ms[1..], limits[1..]); }
  }

  lemma StringEntryBound(key: string, s: Text)
    ensures MemberLength(Entry(key, String(s))) <= 6 * |key| + |StringText(s)| + 4
    ensures |StringText(s)| <= 6 * |s| + 2
  {
    EscapeBound(Ascii(key));
    EscapeBound(s);
    hide Escape;
  }

  lemma BuddiesBound()
    ensures MemberLength(Entry("buddy_ip", Array([StringValue("george.local"), StringValue("freddy.local")]))) <= 203
  {
    var a, b := StringValue("george.local"), StringValue("freddy.local");
    EscapeBound(Ascii("buddy_ip"));
    EscapeBound(a.s);
    EscapeBound(b.s);
    hide Escape;
    assert ItemsText([a, b], false, 2) == ValueText(a, false, 2) + [COMMA] + ValueText(b, false, 2) by {
      assert [a, b][1..] == [b] && [b][1..] == [];
    }
  }

  lemma DefaultFits(serverName: Text)
    requires |serverName| < NAME_SIZE
    ensures Fits(DefaultMirror(serverName))
  {
    hide MemberLength, Ascii, Entry, StringValue, ValueText, MembersText, Total, Fits;
    DefaultEntryBounds(serverName);
    ShortMembersFit(DefaultMirror(serverName).members);
  }

  lemma NoTotal()
    ensures Total([]) == 0
  {
  }

  /** The default mirror after one increment. */
  lemma IncrementedDefault(serverName: Text)
    requires NulFree(serverName) && |serverName| < NAME_SIZE
    ensures Count(DefaultMirror(serverName)) < INT_MAX
    ensures var n := Increment(DefaultMirror(serverName));
            && n == Object(DefaultMirror(serverName).members[1 := Entry("update_count", Number(2.0))])
            && n.members[4].value == String(serverName) && Fits(n)
  {
    hide MemberLength, ValueText, MembersText, Total, Fits, FindKey, Sound, Printable, StringValue;
    var ms := DefaultMirror(serverName).members;
    DefaultIsSound(serverName);
    DefaultCounter(serverName);
    var ns := ms[1 := Entry("update_count", Number(2.0))];
    DefaultEntryBounds(serverName);
    CounterBound();
    ShortMembersFit(ns);
  }

  lemma DefaultCounter(serverName: Text)
    ensures FindKey(DefaultMirror(serverName).members, COUNT_KEY) == 1 && ValueInt(1.0) == 1
  {
    hide StringValue;
    var ms := DefaultMirror(serverName).members;
    assert !SameKey(COUNT_KEY, ms[0].key) by { assert ToLower(COUNT_KEY[0]) == 117 && ToLower(ms[0].key[0]) == 106; }
    assert SameKey(COUNT_KEY, ms[1].key);
  }

  /** Ten members within these lengths fit a message. */
  lemma ShortMembersFit(ms: seq<Member>)
    requires |ms| == 10 && forall i :: 0 <= i < 10 ==> MemberLength(ms[i]) <= LIMITS[i]
    ensures Fits(Object(ms))
  {
    hide MemberLength, ValueText, MembersText, Total;
    var limits := LIMITS;
    MembersBound(ms, limits);
    TotalOfFive(limits);
    TotalOfFive(limits[5..]);
    assert limits[5..][5..] == [];
    NoTotal();
    ObjectLength(ms);
  }

  const LIMITS: seq<nat> := [96, 77, 108, 203, 438, 72, 66, 149, 149, 149]

  lemma TotalOfFive(n: seq<nat>)
    requires |n| >= 5
    ensures Total(n) == n[0] + n[1] + n[2] + n[3] + n[4] + Total(n[5..])
  {
    TotalStep(n, 0);
    TotalStep(n, 1);
    TotalStep(n, 2);
    TotalStep(n, 3);
    TotalStep(n, 4);
    assert n[0..] == n;
  }

  lemma TotalStep(n: seq<nat>, i: nat)
    requires i < |n|
    ensures Total(n[i..]) == n[i] + Total(n[i + 1..])
  {
    assert n[i..][1..] == n[i + 1..];
  }

  lemma ObjectLength(ms: seq<Member>)
    ensures |ValueText(Object(ms), false, 0)| == |MembersText(ms, false, 1)| + 2
  {
    hide MembersText;
  }

  lemma DefaultEntryBounds(serverName: Text)
    requires |serverName| < NAME_SIZE
    ensures MemberLength(Entry("json_version", StringValue("1.0"))) <= 96
    ensures MemberLength(Entry("update_count", Number(1.0))) <= 77
    ensures MemberLength(Entry("server_version", StringValue("1.0"))) <= 108
    ensures MemberLength(Entry("buddy_ip", Array([StringValue("george.local"), StringValue("freddy.local")]))) <= 203
    ensures MemberLength(Entry("server_ip", String(serverName))) <= 438
    ensures MemberLength(Entry("well_delay", StringValue("1"))) <= 72
    ensures MemberLength(Entry("skip_days", StringValue("0"))) <= 66
    ensures MemberLength(Entry("junk1", StringValue(LONG_STRING))) <= 149
    ensures MemberLength(Entry("junk2", StringValue(LONG_STRING))) <= 149
    ensures MemberLength(Entry("junk3", StringValue(LONG_STRING))) <= 149
  {
    BuddiesBound();
    LongStringLength();
    CounterBound();
    hide MemberLength, Entry, StringText;
    StringEntryBound("json_version", Ascii("1.0"));
    StringEntryBound("server_version", Ascii("1.0"));
    StringEntryBound("server_ip", serverName);
    StringEntryBound("well_delay", Ascii("1"));
    StringEntryBound("skip_days", Ascii("0"));
    StringEntryBound("junk1", Ascii(LONG_STRING));
    StringEntryBound("junk2", Ascii(LONG_STRING));
    StringEntryBound("junk3", Ascii(LONG_STRING));
  }

  lemma CounterBound()
    ensures MemberLength(Entry("update_count", Number(1.0))) <= 77
    ensures MemberLength(Entry("update_count", Number(2.0))) <= 77
  {
    EscapeBound(Ascii("update_count"));
    assert ValueInt(1.0) == 1 && ValueInt(2.0) == 2;
    hide Escape;
  }

  // ---- messages ----

  function Le32(n: nat): (t: Text)
    ensures |t| == 4
  {
    [n % 256, n / 256 % 256, n / 65536 % 256, n / 16777216 % 256]
  }

  function ReadLe32(t: Text, i: nat): (n: nat)
    requires i + 4 <= |t|
    ensures n < 0x1_0000_0000
  {
    (t[i] as int) + 256 * (t[i + 1] as int) + 65536 * (t[i + 2] as int) + 16777216 * (t[i + 3] as int)
  }

  lemma Le32RoundTrip(n: nat)
    requires n < 0x1_0000_0000
    ensures ReadLe32(Le32(n), 0) == n
  {
    var a := n / 256;
    var b := a / 256;
    var c := b / 256;
    assert n / 65536 == b && n / 16777216 == c && c % 256 == c;
    assert n == n % 256 + 256 * (a % 256 + 256 * (b % 256 + 256 * c));
  }

  function Header(size: nat, version: nat): (t: Text)
    ensures |t| == HEADER_SIZE
  {
    Le32(JSON_PROTOCOL_VERSION) + Le32(size) + Le32(version)
  }

  function MessageSize(mem: Text): nat
    requires |mem| >= HEADER_SIZE
  {
    ReadLe32(mem, 4)
  }

  function DataVersion(mem: Text): nat
    requires |mem| >= HEADER_SIZE
  {
    ReadLe32(mem, 8)
  }

  lemma HeaderFields(size: nat, version: nat, rest: Text)
    requires size < 0x1_0000_0000 && version < 0x1_0000_0000
    ensures MessageSize(Header(size, version) + rest) == size
    ensures DataVersion(Header(size, version) + rest) == version
    ensures (Header(size, version) + rest)[HEADER_SIZE..] == rest
  {
    var h := Header(size, version);
    Le32RoundTrip(size);
    Le32RoundTrip(version);
    var a, b := Le32(size), Le32(version);
    assert forall k :: 0 <= k < 4 ==> (h + rest)[4 + k] == a[k] && (h + rest)[8 + k] == b[k];
    assert (h + rest)[4] == a[0] && (h + rest)[5] == a[1] && (h + rest)[6] == a[2] && (h + rest)[7] == a[3];
    assert (h + rest)[8] == b[0] && (h + rest)[9] == b[1] && (h + rest)[10] == b[2] && (h + rest)[11] == b[3];
  }

  /** int converted to uint32_t, as in the comparison of the counters. */
  function AsUnsigned(n: int): (u: nat)
    requires INT_MIN <= n <= INT_MAX
    ensures u < 0x1_0000_0000 && (u - n) % 0x1_0000_0000 == 0
  {
    if n < 0 then n + 0x1_0000_0000 else n
  }

  lemma CountInRange(m: Value)
    ensures INT_MIN <= Count(m) <= INT_MAX
  {
  }

  /** json_prep_get_counter_value: the whole message, or nothing when the text does not fit. */
  function PrepareMessage(m: Value): (r: Option<Text>)
    ensures r.Some? ==> |r.value| >= HEADER_SIZE
  {
    var text := ValueText(m, false, 0);
    CountInRange(m);
    if Fits(m) then Some(Header(HEADER_SIZE + |text|, AsUnsigned(Count(m))) + text) else None
  }

  /** tcp_server_json_check_freshness: the server takes the received JSON unless its own is newer.
      `mem` is the receive buffer, the message and whatever stands behind it. */
  function ServerMirror(mine: Value, mem: Text): (r: Option<Value>)
    requires |mem| >= HEADER_SIZE
  {
    CountInRange(mine);
    if AsUnsigned(Count(mine)) <= DataVersion(mem) then Adopt(mem) else Some(mine)
  }

  /** The reply: a bare header when the server took the client's JSON, its own message otherwise. */
  function ServerReply(mine: Value, mem: Text): (r: Option<Text>)
    requires |mem| >= HEADER_SIZE
    ensures r.Some? ==> |r.value| >= HEADER_SIZE
  {
    CountInRange(mine);
    if AsUnsigned(Count(mine)) <= DataVersion(mem) then Some(BareHeader(mem)) else PrepareMessage(mine)
  }

  /** The received header with its size set to that of a header. */
  function BareHeader(mem: Text): (t: Text)
    requires |mem| >= HEADER_SIZE
    ensures |t| == HEADER_SIZE
  {
    mem[..4] + Le32(HEADER_SIZE) + mem[8..12]
  }

  /** tcp_client_json_handle_reply */
  function ClientMirror(mine: Value, mem: Text): Option<Value>
    requires |mem| >= HEADER_SIZE
  {
    CountInRange(mine);
    if MessageSize(mem) <= HEADER_SIZE then Some(mine)
    else if AsUnsigned(Count(mine)) <= DataVersion(mem) then Adopt(mem)
    else Some(mine)
  }

  /** cJSON_Parse behind the header; a failed parse leaves no mirror. */
  function Adopt(mem: Text): Option<Value>
    requires |mem| >= HEADER_SIZE
  {
    match Parse(mem[HEADER_SIZE..])
    case Fail => None
    case Ok(v, _) => Some(v)
  }

  /** The bytes of a prepared message: four of protocol 1, four of the whole length, four of the counter, the
      least significant first, and the text. */
  lemma MessageLayout(m: Value)
    requires PrepareMessage(m).Some?
    ensures var t := PrepareMessage(m).value;
            && t[..4] == [1, 0, 0, 0] && t[12..] == ValueText(m, false, 0)
            && (t[4] as int) + 256 * (t[5] as int) == |t| && t[6] == t[7] == 0
            && (Count(m) >= 0 ==> (t[8] as int) + 256 * (t[9] as int) + 65536 * (t[10] as int)
                                  + 16777216 * (t[11] as int) == Count(m))
  {
    hide ValueText, CounterIndex;
    var text := ValueText(m, false, 0);
    var t, size := PrepareMessage(m).value, HEADER_SIZE + |text|;
    CountInRange(m);
    hide Count;
    HeaderFields(size, AsUnsigned(Count(m)), text);
    HeaderBytes(size, AsUnsigned(Count(m)), text);
    assert size / 65536 == 0 && size / 16777216 == 0 && size / 256 % 256 == size / 256;
  }

  lemma HeaderBytes(size: nat, version: nat, text: Text)
    ensures var t := Header(size, version) + text;
            && t[..4] == [1, 0, 0, 0] && t[12..] == text && t[4] == size % 256 && t[5] == size / 256 % 256
            && t[6] == size / 65536 % 256 && t[7] == size / 16777216 % 256
            && ReadLe32(t, 8) == ReadLe32(Le32(version), 0)
  {
    var t := Header(size, version) + text;
    assert t[4..8] == Le32(size) && t[8..12] == Le32(version);
    assert t[4] == t[4..8][0] && t[5] == t[4..8][1] && t[6] == t[4..8][2] && t[7] == t[4..8][3];
    assert t[8] == t[8..12][0] && t[9] == t[8..12][1] && t[10] == t[8..12][2] && t[11] == t[8..12][3];
  }

  // ---- one complete exchange ----

  lemma {:induction false} CStringOfText(t: Text, junk: Text)
    requires NulFree(t)
    ensures CString(t + junk) == t + CString(junk)
  {
    if t == [] {
      assert [] + junk == junk && [] + CString(junk) == CString(junk);
    } else {
      assert (t + junk)[1..] == t[1..] + junk;
      CStringOfText(t[1..], junk);
      assert [t[0]] + (t[1..] + CString(junk)) == t + CString(junk);
    }
  }

  lemma TextRoundTrip(m: Value, junk: Text)
    requires Sound(m)
    ensures var r := Parse(ValueText(m, false, 0) + junk); r.Ok? && r.value == m
  {
    hide ValueText, ParseBuffer, CString, NulFree, Printable;
    var text := ValueText(m, false, 0);
    JsonPrinter.ValueTextNulFree(m, false, 0);
    CStringOfText(text, junk);
    assert text + CString(junk) + [0] == text + (CString(junk) + [0]);
    JsonRoundTrip.ContainerRoundTrip(m, false, CString(junk) + [0]);
  }

  lemma MessageParts(m: Value, junk: Text)
    requires Fits(m) && Count(m) >= 1
    ensures PrepareMessage(m).Some?
    ensures var mem := PrepareMessage(m).value + junk;
            && MessageSize(mem) == |PrepareMessage(m).value| && DataVersion(mem) == Count(m)
            && mem[HEADER_SIZE..] == ValueText(m, false, 0) + junk
  {
    hide ValueText, Header, MessageSize, DataVersion, CounterIndex;
    var text := ValueText(m, false, 0);
    CountInRange(m);
    var h := Header(HEADER_SIZE + |text|, AsUnsigned(Count(m)));
    HeaderFields(HEADER_SIZE + |text|, AsUnsigned(Count(m)), text + junk);
    assert h + text + junk == h + (text + junk);
  }

  /** The receiver reads the sender's mirror back from the message, whatever the buffer held before. */
  lemma MessageRoundTrip(m: Value, junk: Text)
    requires Sound(m) && Fits(m)
    ensures PrepareMessage(m).Some? && |PrepareMessage(m).value| > HEADER_SIZE
    ensures MessageSize(PrepareMessage(m).value + junk) == |PrepareMessage(m).value|
    ensures DataVersion(PrepareMessage(m).value + junk) == Count(m)
    ensures Adopt(PrepareMessage(m).value + junk) == Some(m)
  {
    hide ValueText, Parse, MessageSize, DataVersion, Printable, Nesting, CounterIndex, Count;
    JsonRoundTrip.ValueTextStarts(m, false, 0);
    MessageParts(m, junk);
    TextRoundTrip(m, junk);
  }

  /** The reply that is a bare header: it states its own length, and the client keeps its JSON. */
  lemma BareHeaderBehind(mine: Value, mem: Text, junk: Text)
    requires |mem| >= HEADER_SIZE
    ensures MessageSize(BareHeader(mem) + junk) == HEADER_SIZE
    ensures ClientMirror(mine, BareHeader(mem) + junk) == Some(mine)
  {
    hide DataVersion, Adopt, Count;
    Le32RoundTrip(HEADER_SIZE);
    var r := BareHeader(mem) + junk;
    var a := Le32(HEADER_SIZE);
    assert r[4] == a[0] && r[5] == a[1] && r[6] == a[2] && r[7] == a[3];
  }

  /** Mirrors of client and server after one exchange, for a request that was made from `sent`;
      nothing when a message did not fit. The two junk texts are what the buffers hold behind the
      received bytes. */
  function Exchange(client: Value, sent: Value, server: Value, serverJunk: Text, clientJunk: Text)
    : Option<(Option<Value>, Option<Value>)>
  {
    match PrepareMessage(sent)
    case None => None
    case Some(request) =>
      var mem := request + serverJunk;
      match ServerReply(server, mem)
      case None => None
      case Some(reply) => Some((ClientMirror(client, reply + clientJunk), ServerMirror(server, mem)))
  }

  /** The fresher of two mirrors; the client's when the counters are equal. */
  function Fresher(client: Value, server: Value): Value {
    if Count(server) <= Count(client) then client else server
  }

  /** The client's mirror after a reply to a request made from `sent`: it takes the server's JSON when
      the server sent it, and it is not older than its own by now. */
  function Answered(client: Value, sent: Value, server: Value): Value {
    if Count(server) <= Count(sent) || Count(server) < Count(client) then client else server
  }

  /** What a complete exchange does to both sides, also when the client has moved on since its request
      was made. */
  lemma ExchangeResult(client: Value, sent: Value, server: Value, serverJunk: Text, clientJunk: Text)
    requires Sound(client) && Sound(sent) && Sound(server) && Fits(sent)
    requires Count(server) <= Count(sent) || Fits(server)
    ensures Exchange(client, sent, server, serverJunk, clientJunk)
         == Some((Some(Answered(client, sent, server)), Some(Fresher(sent, server))))
  {
    MessageRoundTrip(sent, serverJunk);
    CountInRange(client);
    CountInRange(server);
    var mem := PrepareMessage(sent).value + serverJunk;
    hide PrepareMessage, MessageSize, DataVersion, Adopt, Sound, Count, Le32, BareHeader;
    if Count(server) <= Count(sent) {
      BareHeaderBehind(client, mem, clientJunk);
    } else {
      MessageRoundTrip(server, clientJunk);
    }
  }

  /** An exchange that nothing disturbs leaves the same JSON, the fresher one, on both sides. */
  lemma ExchangeAgrees(client: Value, server: Value, serverJunk: Text, clientJunk: Text)
    requires Sound(client) && Sound(server) && Fits(client)
    requires Count(server) <= Count(client) || Fits(server)
    ensures Exchange(client, client, server, serverJunk, clientJunk)
         == Some((Some(Fresher(client, server)), Some(Fresher(client, server))))
  {
    hide Exchange, Sound, Count, Fits;
    ExchangeResult(client, client, server, serverJunk, clientJunk);
  }
}
