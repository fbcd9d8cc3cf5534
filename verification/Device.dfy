/** One device of json_handler.c: the global mirror, and what the two ends of an exchange do to it. */
module Device {
  import opened Bytes
  import opened JsonValue
  import opened Mirror
  import JsonCompare
  import JsonPrinter
  import JsonReader

  class Node {
    const serverName: Text
    var mirror: Option<Value>

    constructor (serverName: Text)
      ensures this.serverName == serverName && mirror == None
    {
      this.serverName := serverName;
      mirror := None;
    }

    /** The mirror that get_mirror returns. */
    function Current(): Value
      reads this
    {
      if mirror.None? then DefaultMirror(serverName) else mirror.value
    }

    method GetMirror() returns (m: Value)
      modifies this
      ensures m == old(Current()) == Current() && mirror == Some(m)
      ensures m == if old(mirror) == None then DefaultMirror(serverName) else old(mirror).value
    {
      if mirror.None? { mirror := Some(DefaultMirror(serverName)); }
      m := mirror.value;
    }

    /** inc_mirror_counter: the first member of that name is searched, and counts one more when it is a
        number. Every other member stays as it is. */
    method IncMirrorCounter()
      requires mirror.Some? && Count(mirror.value) < INT_MAX
      modifies this
      ensures mirror == Some(Increment(old(mirror).value))
      ensures CounterIndex(old(mirror).value).None? ==> mirror == old(mirror)
      ensures CounterIndex(old(mirror).value).Some? ==>
                var i, m, n := CounterIndex(old(mirror).value).value, old(mirror).value, mirror.value;
                && n.Object? && |n.members| == |m.members| && n.members[i].key == m.members[i].key
                && Count(n) == Count(m) + 1
                && forall k :: 0 <= k < |m.members| && k != i ==> n.members[k] == m.members[k]
    {
      hide FindKey, SameKey;
      var m := mirror.value;
      if !m.Object? { return; }
      var ms := m.members;
      var i := 0;
      while i < |ms| && !SameKey(COUNT_KEY, ms[i].key)
        invariant 0 <= i <= |ms| && forall k :: 0 <= k < i ==> !SameKey(COUNT_KEY, ms[k].key)
      {
        i := i + 1;
      }
      assert FindKey(ms, COUNT_KEY) == i;
      if i < |ms| && ms[i].value.Number? {
        var v := Number((ValueInt(ms[i].value.d) + 1) as real);
        FindKeyAfterUpdate(ms, COUNT_KEY, i, v);
        mirror := Some(Object(ms[i := ms[i].(value := v)]));
      }
    }

    /** json_prep_get_counter_value, with the printer writing behind the header. */
    method Prepare() returns (message: Option<Text>)
      requires Printable(Current())
      modifies this
      ensures message == PrepareMessage(Current()) && Current() == old(Current())
    {
      hide ValueText, Printable;
      var m := GetMirror();
      var text := new Byte[PRINT_LENGTH];
      var ready := JsonPrinter.PrintPreallocated(m, text, false);
      if !ready { return None; }
      JsonPrinter.ValueTextNulFree(m, false, 0);
      ghost var t := ValueText(m, false, 0);
      assert text[..] == t + text[|t|..] by {
        assert text[..|t| + 1][..|t|] == t;
      }
      CStringOfText(t, text[|t|..]);
      assert text[|t|] == 0 by { assert text[..|t| + 1][|t|] == 0; }
      assert CString(text[|t|..]) == [];
      assert t + [] == t;
      var json := CString(text[..]);
      CountInRange(m);
      message := Some(Header(HEADER_SIZE + |json|, AsUnsigned(Count(m))) + json);
    }

    /** The items below the first member "buddy_ip" of the mirror. */
    method BuddyItems() returns (items: seq<Value>)
      requires mirror.Some?
      ensures Strings(items) == ListedNames(mirror.value)
    {
      hide Strings, JsonCompare.Lookup;
      var m := mirror.value;
      StringsOfNothing();
      if !m.Object? { return []; }
      var ms := m.members;
      var i := 0;
      ghost var sought := JsonCompare.Lookup(ms, BUDDY_KEY);
      assert ms[0..] == ms;
      while i < |ms| && ms[i].key != BUDDY_KEY
        invariant i <= |ms| && JsonCompare.Lookup(ms[i..], BUDDY_KEY) == sought
      {
        LookupNext(ms, i, BUDDY_KEY);
        i := i + 1;
      }
      LookupNext(ms, i, BUDDY_KEY);
      if i == |ms| { return []; }
      match ms[i].value {
        case Array(vs) => items := vs;
        case Object(ns) => items := MemberValues(ns);
        case _ => items := [];
      }
    }

    /** tcp_client_json_update_buddies: the names to which connections are opened, one after the other, when
        there is a message with a counter above zero. */
    method UpdateBuddies() returns (message: Option<Text>, contacted: seq<Text>)
      requires Printable(Current())
      modifies this
      ensures Current() == old(Current()) && message == PrepareMessage(Current())
      ensures contacted == if message.None? || Count(Current()) <= 0 then []
                        else Others(ListedNames(Current()), serverName)
    {
      hide Strings, Others, ListedNames, PrepareMessage, Count;
      contacted := [];
      message := Prepare();
      var m := GetMirror();
      if message.None? || Count(m) <= 0 { return; }
      var items := BuddyItems();
      NobodyElse(serverName);
      StringsOfNothing();
      var i := 0;
      while i < |items|
        invariant i <= |items| && contacted == Others(Strings(items[..i]), serverName)
        invariant mirror == Some(m)
      {
        ItemTaken(items, i, serverName);
        if items[i].String? && items[i].s != serverName { contacted := contacted + [items[i].s]; }
        i := i + 1;
      }
      assert items[..i] == items;
    }

    method Parse(mem: Text)
      requires |mem| >= HEADER_SIZE
      modifies this
      ensures mirror == Adopt(mem)
    {
      var r, _ := JsonReader.ParseText(CString(mem[HEADER_SIZE..]) + [0], false);
      mirror := r;
    }

    /** tcp_server_json_check_freshness and the choice of the reply. */
    method CheckFreshness(mem: Text) returns (reply: Option<Text>)
      requires |mem| >= HEADER_SIZE && Printable(Current())
      modifies this
      ensures reply == ServerReply(old(Current()), mem)
      ensures mirror == ServerMirror(old(Current()), mem)
    {
      hide Printable, ValueText, Adopt, PrepareMessage;
      var m := GetMirror();
      CountInRange(m);
      if AsUnsigned(Count(m)) <= DataVersion(mem) {
        Parse(mem);
        reply := Some(BareHeader(mem));
      } else {
        reply := Prepare();
        m := GetMirror();
      }
    }

    /** tcp_client_json_handle_reply */
    method HandleReply(mem: Text)
      requires |mem| >= HEADER_SIZE
      modifies this
      ensures Some(Current()) == ClientMirror(old(Current()), mem)
              || (mirror.None? && ClientMirror(old(Current()), mem).None?)
    {
      hide Adopt;
      if MessageSize(mem) <= HEADER_SIZE { return; }
      var m := GetMirror();
      CountInRange(m);
      if AsUnsigned(Count(m)) <= DataVersion(mem) { Parse(mem); }
    }
  }

  lemma StringsOfNothing()
    ensures Strings([]) == []
  {
  }

  lemma NobodyElse(own: Text)
    ensures Others([], own) == []
  {
  }

  lemma LookupNext(ms: seq<Member>, i: nat, key: Text)
    requires i <= |ms|
    ensures JsonCompare.Lookup(ms[i..], key)
         == if i == |ms| then None else if ms[i].key == key then Some(ms[i].value)
            else JsonCompare.Lookup(ms[i + 1..], key)
  {
    if i < |ms| { assert ms[i..][1..] == ms[i + 1..]; }
  }

  /** One turn of the loop over the items. */
  lemma ItemTaken(items: seq<Value>, i: nat, own: Text)
    requires i < |items|
    ensures Others(Strings(items[..i + 1]), own)
         == Others(Strings(items[..i]), own)
            + if items[i].String? && items[i].s != own then [items[i].s] else []
  {
    hide Strings;
    assert items[..i + 1] == items[..i] + [items[i]];
    StringsAppend(items[..i], [items[i]]);
    StringsOne(items[i]);
    OthersAppend(Strings(items[..i]), Strings([items[i]]), own);
    if items[i].String? { assert [items[i].s][1..] == []; }
  }

  /** A whole exchange between two devices: both end with the same JSON, the fresher of the two. */
  method RunExchange(client: Node, server: Node, serverJunk: Text, clientJunk: Text)
    requires client != server
    requires Sound(client.Current()) && Sound(server.Current()) && Fits(client.Current())
    requires Count(server.Current()) <= Count(client.Current()) || Fits(server.Current())
    modifies client, server
    ensures client.Current() == server.Current() == Fresher(old(client.Current()), old(server.Current()))
  {
    hide Sound, Fits, Count, ServerReply, ClientMirror, ServerMirror, PrepareMessage;
    ghost var c, s := client.Current(), server.Current();
    ExchangeAgrees(c, s, serverJunk, clientJunk);
    SoundIsPrintable(c);
    SoundIsPrintable(s);
    var request := client.Prepare();
    assert request.Some?;
    var reply := server.CheckFreshness(request.value + serverJunk);
    client.HandleReply(reply.value + clientJunk);
  }

  lemma SoundIsPrintable(m: Value)
    requires Sound(m)
    ensures Printable(m)
  {
  }
}
