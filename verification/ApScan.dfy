/** The list of scanned access points (find_local_ssid.c): kept free of duplicates while scanning,
    sorted by signal, and offered one by one. */
module ApScan {
  import opened Bytes
  import opened Cdll
  import opened SsidStore
  import opened FlashIo
  import RingWalk

  const LOCAL_SCAN_MIN_RSSI := -80

  ghost predicate SsidsDistinct(s: seq<Node>)
    reads s`ssid
  {
    forall i, j :: 1 <= i < j < |s| ==> s[i].ssid != s[j].ssid
  }

  /** knownnodes: a ring with a head, pairwise distinct names on the data nodes. */
  ghost predicate Known(s: seq<Node>, head: Node)
    reads s`next, s`prev, s`ssid
  {
    Ring(s) && s[0] == head && SsidsDistinct(s)
  }

  /** unique_ssid */
  method UniqueSsid(ssid: Text, head: Node, ghost s: seq<Node>) returns (unique: bool)
    requires Ring(s) && s[0] == head
    ensures unique <==> forall i :: 1 <= i < |s| ==> s[i].ssid != ssid
  {
    LinkAt(s, 0);
    var ll := head.next;
    ghost var i := 1;
    while ll != head
      invariant 1 <= i <= |s| && ll == (if i == |s| then head else s[i])
      invariant forall k :: 1 <= k < i ==> s[k].ssid != ssid
      decreases |s| - i
    {
      LinkAt(s, i);
      if |ll.ssid| == |ssid| && ll.ssid == ssid { return false; }
      ll := ll.next;
      i := i + 1;
    }
    return true;
  }

  /** A name of that length with a weaker signal. */
  predicate Weaker(n: Node, ssid: Text, rssi: int)
    reads n`ssid, n`rssi
  {
    |n.ssid| == |ssid| && n.rssi < rssi
  }

  /** better_rssi: the first node with a name of that length and a weaker signal. */
  method BetterRssi(ssid: Text, rssi: int, head: Node, ghost s: seq<Node>) returns (better: Node?, ghost at: nat)
    requires Ring(s) && s[0] == head
    ensures 1 <= at <= |s| && better == if at < |s| then s[at] else null
    ensures better == null <==> forall i :: 1 <= i < |s| ==> !Weaker(s[i], ssid, rssi)
    ensures better != null ==> better in s && Weaker(better, ssid, rssi)
    ensures forall i :: 1 <= i < at ==> !Weaker(s[i], ssid, rssi)
    ensures better != null ==> |better.ssid| == |ssid| && better.rssi < rssi
    ensures forall i :: 1 <= i < at ==> |s[i].ssid| != |ssid| || s[i].rssi >= rssi
  {
    LinkAt(s, 0);
    var ll := head.next;
    ghost var i := 1;
    while ll != head
      invariant 1 <= i <= |s| && ll == (if i == |s| then head else s[i])
      invariant forall k :: 1 <= k < i ==> !Weaker(s[k], ssid, rssi)
      decreases |s| - i
    {
      LinkAt(s, i);
      if |ll.ssid| == |ssid| && rssi > ll.rssi {
        return ll, i;
      }
      ll := ll.next;
      i := i + 1;
    }
    return null, |s|;
  }

  /** scan_all_result: the list stays a ring of distinct names; a strong enough new name is added at
      its end. For a known name the first entry of that length with a weaker signal, `at` if any,
      takes channel and signal; nothing else changes. */
  method ScanResult(ssid: Text, channel: nat, rssi: int, head: Node, ghost s: seq<Node>)
    returns (ghost t: seq<Node>, ghost at: nat)
    requires Known(s, head)
    modifies s
    ensures Known(t, head)
    ensures t == s || (|t| == |s| + 1 && t[..|s|] == s && fresh(t[|s|]) && t[|s|].ssid == ssid && t[|s|].found == 0)
    ensures t != s <==> rssi >= LOCAL_SCAN_MIN_RSSI && |ssid| > 0 && forall i :: 1 <= i < |s| ==> old(s[i].ssid) != ssid
    ensures t != s ==> t[|s|].rssi == rssi && t[|s|].channel == channel && at == |s|
    ensures forall x :: x in s ==> x.ssid == old(x.ssid) && x.found == old(x.found)
    ensures 1 <= at <= |s|
    ensures forall i :: 0 <= i < |s| && i != at ==> s[i].rssi == old(s[i].rssi) && s[i].channel == old(s[i].channel)
    ensures at < |s| ==> old(Weaker(s[at], ssid, rssi)) && s[at].rssi == rssi && s[at].channel == channel
    ensures rssi < LOCAL_SCAN_MIN_RSSI || |ssid| == 0 ==> at == |s|
    ensures t == s && rssi >= LOCAL_SCAN_MIN_RSSI && |ssid| > 0 ==>
            forall i :: 1 <= i < at ==> !old(Weaker(s[i], ssid, rssi))
    ensures forall j :: 1 <= j < |s| && old(s[j].ssid) == ssid && rssi >= LOCAL_SCAN_MIN_RSSI && |ssid| > 0 ==>
              (at == j <==> old(Weaker(s[j], ssid, rssi)) && forall i :: 1 <= i < j ==> !old(Weaker(s[i], ssid, rssi)))
  {
    RingHolds(s);
    hide Ring;
    t, at := s, |s|;
    if rssi < LOCAL_SCAN_MIN_RSSI || |ssid| == 0 { return; }
    var unique := UniqueSsid(ssid, head, s);
    if unique {
      var node := new Node(ssid, channel, rssi);
      InsertTail(node, head, s);
      t := s + [node];
    } else {
      at := Improve(ssid, channel, rssi, head, s);
    }
  }

  /** The update of a known name: the first weaker entry of that length, `at` if any. */
  method Improve(ssid: Text, channel: nat, rssi: int, head: Node, ghost s: seq<Node>) returns (ghost at: nat)
    requires Ring(s) && s[0] == head
    modifies s`channel, s`rssi
    ensures 1 <= at <= |s|
    ensures forall i :: 0 <= i < |s| && i != at ==> s[i].rssi == old(s[i].rssi) && s[i].channel == old(s[i].channel)
    ensures at < |s| ==> old(Weaker(s[at], ssid, rssi)) && s[at].rssi == rssi && s[at].channel == channel
    ensures forall i :: 1 <= i < at ==> !old(Weaker(s[i], ssid, rssi))
  {
    RingHolds(s);
    hide Ring;
    var better;
    better, at := BetterRssi(ssid, rssi, head, s);
    if better != null {
      better.channel := channel;
      better.rssi := rssi;
    }
  }

  // ---- offering access points ----

  /** What the offers depend on, for every node of the list. */
  datatype Ap = Ap(node: Node, ssid: Text, rssi: int, found: int)

  ghost function View(s: seq<Node>): (v: seq<Ap>)
    reads s
    ensures |v| == |s| && forall i :: 0 <= i < |s| ==> v[i] == Ap(s[i], s[i].ssid, s[i].rssi, s[i].found)
  {
    seq(|s|, i requires 0 <= i < |s| reads s => Ap(s[i], s[i].ssid, s[i].rssi, s[i].found))
  }

  /** Not offered yet, and its password is in flash. */
  ghost predicate Offerable(a: Ap, stored: Text -> bool) {
    a.found == 0 && stored(a.ssid)
  }

  /** The names that the log has a password for. */
  ghost function Knows(ps: seq<RingWalk.Piece>): Text -> bool {
    ss => SsidStore.Lookup(ps, ss).Some?
  }

  /** Names as a scan gives them: a C string that is not empty, shorter than an entry. */
  ghost predicate Named(s: seq<Node>)
    reads s`ssid
  {
    forall i :: 1 <= i < |s| ==> NulFree(s[i].ssid) && 0 < |s[i].ssid| < ENTRY_LIMIT
  }

  /** The store is faithful and has the log `ps`. */
  ghost predicate Backed(creds: Credentials, o: nat, last: map<Text, Text>, ps: seq<RingWalk.Piece>)
    reads creds
  {
    creds.Faithful(o, last) && LogOf(creds.flash, o) == ps
  }

  /** A lookup in the flash gives the last password of a name, if any, and leaves the log as it is. */
  method PasswordOf(creds: Credentials, ss: Text, junk: nat, ghost o: nat, ghost last: map<Text, Text>,
                    ghost ps: seq<RingWalk.Piece>)
    returns (pw: Option<Text>)
    requires Backed(creds, o, last, ps) && NulFree(ss) && 0 < |ss| < ENTRY_LIMIT
    modifies creds`flash, creds`page
    ensures Backed(creds, o, last, ps)
    ensures pw == SsidStore.Lookup(ps, ss) && (pw.Some? ==> ss in last && pw.value == last[ss])
  {
    hide LastWins, SsidStore.Lookup, Pruned, Searchable, LogOf, NulFree, Stored;
    FoundIsLast(ps, ss, last);
    LastWinsStored(ps, last);
    pw := creds.FindMatching(ss, junk, o);
  }

  lemma LastWinsStored(ps: seq<RingWalk.Piece>, last: map<Text, Text>)
    requires LastWins(ps, last)
    ensures Stored(ps)
  {
  }

  /** scan_find_best_ap: the first node behind the head that is not offered yet and whose password is
      in flash is returned and marked, with that password. */
  method FindBest(creds: Credentials, junk: nat, head: Node, ghost s: seq<Node>, ghost all: set<Node>, ghost o: nat,
                  ghost last: map<Text, Text>, ghost ps: seq<RingWalk.Piece>)
    returns (r: Node?, password: Text, ghost at: nat)
    requires Ring(s) && s[0] == head && Within(s, all) && Named(s) && Backed(creds, o, last, ps)
    modifies all`found, creds`flash, creds`page
    ensures Backed(creds, o, last, ps)
    ensures r == null ==> View(s) == old(View(s)) && forall i :: 1 <= i < |s| ==> !Offerable(View(s)[i], Knows(ps))
    ensures r != null ==> 1 <= at < |s| && r == s[at] && Offerable(old(View(s))[at], Knows(ps))
    ensures r != null ==> r.ssid in last && password == last[r.ssid]
    ensures r != null ==> View(s) == old(View(s))[at := old(View(s))[at].(found := 42)]
    ensures r != null ==> forall i :: 1 <= i < at ==> !Offerable(old(View(s))[i], Knows(ps))
  {
    hide Backed, SsidStore.Lookup, NulFree;
    var best: Node? := null;
    password := [];
    LinkAt(s, 0);
    var ll := head.next;
    ghost var i := 1;
    at := 0;
    while ll != head
      invariant 1 <= i <= |s| && ll == (if i == |s| then head else s[i]) && best == null
      invariant Backed(creds, o, last, ps)
      invariant forall k :: 1 <= k < i ==> !Offerable(View(s)[k], Knows(ps))
      invariant View(s) == old(View(s))
      decreases |s| - i
    {
      LinkAt(s, i);
      if ll.found == 0 {
        if best == null { best := ll; }
        if ll.rssi > best.rssi { best := ll; }
        var pw := PasswordOf(creds, best.ssid, junk, o, last, ps);
        if pw.Some? {
          at, password := i, pw.value;
          break;
        }
        best := null;
      }
      ll := ll.next;
      i := i + 1;
    }
    if best != null {
      best.found := 42;
    }
    r := best;
  }

  /** The offerable nodes behind the head, in list order. */
  ghost function Offers(v: seq<Ap>, stored: Text -> bool): seq<Ap> {
    if |v| <= 1 then []
    else Offers(v[..|v| - 1], stored) + if Offerable(v[|v| - 1], stored) then [v[|v| - 1]] else []
  }

  lemma {:induction false} NoOffers(v: seq<Ap>, stored: Text -> bool)
    requires forall i :: 1 <= i < |v| ==> !Offerable(v[i], stored)
    ensures Offers(v, stored) == []
  {
    if |v| > 1 { NoOffers(v[..|v| - 1], stored); }
  }

  /** Taking the first offer leaves the others. */
  lemma {:induction false} FirstOfferTaken(v: seq<Ap>, stored: Text -> bool, at: nat)
    requires 1 <= at < |v| && Offerable(v[at], stored) && forall i :: 1 <= i < at ==> !Offerable(v[i], stored)
    ensures Offers(v, stored) == [v[at]] + Offers(v[at := v[at].(found := 42)], stored)
    decreases |v|
  {
    var w := v[at := v[at].(found := 42)];
    var init := v[..|v| - 1];
    OffersSnoc(v, stored);
    OffersSnoc(w, stored);
    hide Offers;
    if at == |v| - 1 {
      NoOffers(init, stored);
      assert w[..|v| - 1] == init;
    } else {
      FirstOfferTaken(init, stored, at);
      assert w[..|v| - 1] == init[at := init[at].(found := 42)];
    }
  }

  ghost function NodesOf(v: seq<Ap>): seq<Node> {
    seq(|v|, i requires 0 <= i < |v| => v[i].node)
  }

  /** Calling scan_find_best_ap until it returns NULL gives every stored, not yet offered access point
      once, in list order. */
  method OfferAll(creds: Credentials, junk: nat, head: Node, ghost s: seq<Node>, ghost all: set<Node>, ghost o: nat,
                  ghost last: map<Text, Text>, ghost ps: seq<RingWalk.Piece>) returns (offered: seq<Node>)
    requires Ring(s) && s[0] == head && Within(s, all) && Named(s) && Backed(creds, o, last, ps)
    modifies all`found, creds`flash, creds`page
    ensures Backed(creds, o, last, ps)
    ensures offered == NodesOf(Offers(old(View(s)), Knows(ps)))
    ensures Offers(View(s), Knows(ps)) == []
  {
    hide View, Offers, Ring, Backed, Knows, Named, Offerable, Within;
    offered := [];
    ghost var stored := Knows(ps);
    ghost var goal, done := Offers(View(s), stored), [];
    while true
      invariant goal == done + Offers(View(s), stored) && offered == NodesOf(done) && Backed(creds, o, last, ps)
      decreases |Offers(View(s), stored)|
    {
      ghost var v := View(s);
      var r, _, at := FindBest(creds, junk, head, s, all, o, last, ps);
      if r == null {
        NoOffers(View(s), stored);
        break;
      }
      FirstOfferTaken(v, stored, at);
      offered, done := offered + [r], done + [v[at]];
    }
  }

  lemma {:induction false} OffersAreFromList(v: seq<Ap>, stored: Text -> bool, a: Ap)
    ensures a in Offers(v, stored) <==> exists i :: 1 <= i < |v| && v[i] == a && Offerable(a, stored)
  {
    if |v| > 1 {
      OffersAreFromList(v[..|v| - 1], stored, a);
      assert forall i :: 1 <= i < |v| - 1 ==> v[..|v| - 1][i] == v[i];
      assert v[|v| - 1] == a && Offerable(a, stored) ==> exists i :: 1 <= i < |v| && v[i] == a;
    }
  }

  ghost predicate FallingRssi(v: seq<Ap>) {
    forall i, j :: 0 <= i < j < |v| ==> v[i].rssi >= v[j].rssi
  }

  ghost predicate NamesDistinct(v: seq<Ap>) {
    forall i, j :: 0 <= i < j < |v| ==> v[i].ssid != v[j].ssid
  }

  /** On a sorted list of distinct names, the offers come in order of falling signal and no name
      is offered twice. */
  lemma {:induction false} OffersDescend(v: seq<Ap>, stored: Text -> bool)
    requires |v| > 0 && FallingRssi(v[1..]) && NamesDistinct(v[1..])
    ensures FallingRssi(Offers(v, stored)) && NamesDistinct(Offers(v, stored))
  {
    if |v| > 1 {
      var init, last := v[..|v| - 1], v[|v| - 1];
      assert init[1..] == v[1..][..|v| - 2];
      OffersDescend(init, stored);
      forall a | a in Offers(init, stored) ensures a.rssi >= last.rssi && a.ssid != last.ssid {
        OffersAreFromList(init, stored, a);
        var k :| 1 <= k < |init| && init[k] == a;
        assert v[1..][k - 1] == a && v[1..][|v| - 2] == last;
      }
      hide FallingRssi, NamesDistinct, Offers;
      AppendOffer(Offers(init, stored), last);
      assert Offers(init, stored) + [] == Offers(init, stored);
      OffersSnoc(v, stored);
    }
  }

  lemma OffersSnoc(v: seq<Ap>, stored: Text -> bool)
    requires |v| > 1
    ensures Offers(v, stored)
            == Offers(v[..|v| - 1], stored) + if Offerable(v[|v| - 1], stored) then [v[|v| - 1]] else []
  {
  }

  lemma AppendOffer(v: seq<Ap>, a: Ap)
    requires FallingRssi(v) && NamesDistinct(v) && forall b :: b in v ==> b.rssi >= a.rssi && b.ssid != a.ssid
    ensures FallingRssi(v + [a]) && NamesDistinct(v + [a])
  {
    assert forall i :: 0 <= i < |v| ==> v[i] in v;
  }

  /** scan_find_all_ssids ends with the sort; then every stored name of the scan is offered once,
      strongest first. */
  method SortAndOffer(creds: Credentials, junk: nat, head: Node, ghost s: seq<Node>, ghost o: nat,
                      ghost last: map<Text, Text>,
                      ghost ps: seq<RingWalk.Piece>) returns (offered: seq<Node>, ghost t: seq<Node>)
    requires Known(s, head) && Named(s) && (forall x :: x in s ==> x.found == 0) && Backed(creds, o, last, ps)
    modifies s, creds`flash, creds`page
    ensures Ring(t) && t[0] == head && multiset(t) == multiset(s) && Backed(creds, o, last, ps)
    ensures Descending(offered)
    ensures forall i, j :: 0 <= i < j < |offered| ==> offered[i].ssid != offered[j].ssid
    ensures forall x :: x in offered <==> x in t[1..] && SsidStore.Lookup(ps, x.ssid).Some?
  {
    hide Ring, Descending, FallingRssi, NamesDistinct, Distinct, SsidsDistinct, View, Offers, SameOrder, Shows,
         Backed, SsidStore.Lookup, Named;
    ghost var all := set x | x in s;
    RingHolds(s);
    t := BubbleSort(head, s);
    RingHolds(t);
    SortKeepsNames(s, t);
    SortKeepsNamed(s, t);
    SortedView(t);
    ghost var v := View(t);
    ViewShows(t, v);
    offered := OfferAll(creds, junk, head, t, all, o, last, ps);
    OfferedInOrder(t, v, Knows(ps));
  }

  lemma SortKeepsNamed(s: seq<Node>, t: seq<Node>)
    requires Named(s) && Distinct(t) && |s| == |t| > 0 && s[0] == t[0] && forall x :: x in t <==> x in s
    ensures Named(t)
  {
    forall i | 1 <= i < |t| ensures NulFree(t[i].ssid) && 0 < |t[i].ssid| < ENTRY_LIMIT {
      assert t[i] in s;
      var a :| 0 <= a < |s| && s[a] == t[i];
      assert a > 0;
    }
  }

  lemma RingHolds(s: seq<Node>)
    requires Ring(s)
    ensures |s| > 0 && Distinct(s)
  {
  }

  lemma ViewShows(t: seq<Node>, v: seq<Ap>)
    requires v == View(t) && |t| > 0 && forall x :: x in t ==> x.found == 0
    ensures Shows(t, v)
  {
  }

  lemma OfferedInOrder(t: seq<Node>, v: seq<Ap>, stored: Text -> bool)
    requires Shows(t, v) && FallingRssi(v[1..]) && NamesDistinct(v[1..])
    ensures var offered := NodesOf(Offers(v, stored));
            && Descending(offered)
            && (forall i, j :: 0 <= i < j < |offered| ==> offered[i].ssid != offered[j].ssid)
            && (forall x :: x in offered <==> x in t[1..] && stored(x.ssid))
  {
    OffersDescend(v, stored);
    var o := Offers(v, stored);
    forall k | 0 <= k < |o| ensures NodesOf(o)[k].ssid == o[k].ssid && NodesOf(o)[k].rssi == o[k].rssi {
      OffersAreFromList(v, stored, o[k]);
    }
    forall x ensures x in NodesOf(o) <==> x in t[1..] && stored(x.ssid) { OfferedNodes(t, v, stored, x); }
  }

  /** `v` was taken from the nodes `t`, whose names and signals are still the same, before any offer. */
  ghost predicate Shows(t: seq<Node>, v: seq<Ap>)
    reads t`ssid, t`rssi
  {
    |t| == |v| > 0 && forall i :: 0 <= i < |t| ==>
      v[i].node == t[i] && v[i].ssid == t[i].ssid && v[i].rssi == t[i].rssi && (i > 0 ==> v[i].found == 0)
  }

  lemma SortKeepsNames(s: seq<Node>, t: seq<Node>)
    requires Distinct(s) && Distinct(t) && |s| == |t| > 0 && s[0] == t[0]
    requires multiset(s) == multiset(t) && SsidsDistinct(s)
    ensures SsidsDistinct(t) && (forall x :: x in t <==> x in s)
  {
    forall x ensures x in t <==> x in s { assert x in t <==> x in multiset(t); assert x in s <==> x in multiset(s); }
    forall i, j | 1 <= i < j < |t| ensures t[i].ssid != t[j].ssid {
      assert t[i] in s && t[j] in s;
      var a :| 0 <= a < |s| && s[a] == t[i];
      var b :| 0 <= b < |s| && s[b] == t[j];
      assert a > 0 && b > 0 && a != b;
    }
  }

  lemma SortedView(t: seq<Node>)
    requires |t| > 0 && Descending(t[1..]) && SsidsDistinct(t)
    ensures FallingRssi(View(t)[1..]) && NamesDistinct(View(t)[1..])
  {
    var v := View(t);
    forall i | 0 <= i < |v[1..]| ensures v[1..][i].rssi == t[1..][i].rssi && v[1..][i].ssid == t[i + 1].ssid { }
  }

  lemma OfferedNodes(t: seq<Node>, v: seq<Ap>, stored: Text -> bool, x: Node)
    requires Shows(t, v)
    ensures x in NodesOf(Offers(v, stored)) <==> x in t[1..] && stored(x.ssid)
  {
    var o := Offers(v, stored);
    if x in NodesOf(o) {
      var k :| 0 <= k < |o| && o[k].node == x;
      OffersAreFromList(v, stored, o[k]);
      var i :| 1 <= i < |v| && v[i] == o[k];
      assert t[1..][i - 1] == x;
    }
    if x in t[1..] && stored(x.ssid) {
      var k :| 0 <= k < |t[1..]| && t[1..][k] == x;
      OffersAreFromList(v, stored, v[k + 1]);
      var j :| 0 <= j < |o| && o[j] == v[k + 1];
      assert NodesOf(o)[j] == x;
    }
  }
}
