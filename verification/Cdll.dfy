/** The circular doubly linked list of cdll.c. Every list has a head node that carries no data. */
module Cdll {
  import opened Bytes

  /** struct my_params: the links, and what a scan found. */
  class Node {
    var next: Node
    var prev: Node
    var found: int
    var ssid: Text
    var channel: nat
    var rssi: int

    /** cdll_init */
    constructor (ssid: Text, channel: nat, rssi: int)
      ensures next == prev == this
      ensures found == 0 && this.ssid == ssid && this.channel == channel && this.rssi == rssi
    {
      next, prev := this, this;
      found, this.ssid, this.channel, this.rssi := 0, ssid, channel, rssi;
    }
  }

  /** The neighbour of position `i` in a ring of `n`. */
  ghost function After(i: int, n: nat): int { if i + 1 == n then 0 else i + 1 }

  /** `b` follows `a`, seen from both. */
  ghost predicate Linked(a: Node, b: Node)
    reads a`next, b`prev
  {
    a.next == b && b.prev == a
  }

  /** `s` lists a ring once around; `next` and `prev` are inverse to each other along it. */
  ghost predicate Ring(s: seq<Node>)
    reads s`next, s`prev
  {
    && |s| > 0 && Distinct(s)
    && (forall i :: 0 <= i < |s| ==> Linked(s[i], s[After(i, |s|)]))
  }

  lemma LinkAt(s: seq<Node>, i: nat)
    requires Ring(s) && i < |s|
    ensures Linked(s[i], s[After(i, |s|)])
  {
  }

  /** The frame of the sort: all nodes of the list. */
  ghost predicate Within(s: seq<Node>, all: set<Node>) {
    forall i :: 0 <= i < |s| ==> s[i] in all
  }

  ghost function Inserted(s: seq<Node>, i: nat, x: Node): seq<Node>
    requires i <= |s|
  {
    s[..i] + [x] + s[i..]
  }

  ghost function Removed(s: seq<Node>, i: nat): seq<Node>
    requires i < |s|
  {
    s[..i] + s[i + 1..]
  }

  /** cdll_add_node: `prev` and `next` are neighbours, `node` goes between them. */
  method AddNode(node: Node, prev: Node, next: Node, ghost s: seq<Node>, ghost i: nat)
    requires Ring(s) && node !in s && i < |s| && prev == s[i] && next == s[After(i, |s|)]
    modifies s`next, s`prev, node`next, node`prev
    ensures Ring(Inserted(s, i + 1, node))
  {
    ghost var t := Inserted(s, i + 1, node);
    assert forall k :: 0 <= k < |s| && k != i ==>
      s[k] != prev && Linked(s[k], s[After(k, |s|)]) && s[After(k, |s|)] != next;
    next.prev := node;
    node.next := next;
    node.prev := prev;
    prev.next := node;
    forall k | 0 <= k < |t| ensures Linked(t[k], t[After(k, |t|)]) {
      if k < i { assert Linked(s[k], s[After(k, |s|)]); }
      else if k > i + 1 { assert Linked(s[k - 1], s[After(k - 1, |s|)]); }
    }
    assert Distinct(t);
  }

  /** cdll_insert_node_head: behind the head. */
  method InsertHead(node: Node, head: Node, ghost s: seq<Node>)
    requires Ring(s) && node !in s && s[0] == head
    modifies s`next, s`prev, node`next, node`prev
    ensures Ring([head, node] + s[1..])
  {
    LinkAt(s, 0);
    AddNode(node, head, head.next, s, 0);
    assert Inserted(s, 1, node) == [head, node] + s[1..];
  }

  /** cdll_insert_node_tail: before the head, so at the end of the list. */
  method InsertTail(node: Node, head: Node, ghost s: seq<Node>)
    requires Ring(s) && node !in s && s[0] == head
    modifies s`next, s`prev, node`next, node`prev
    ensures Ring(s + [node])
  {
    LinkAt(s, |s| - 1);
    AddNode(node, head.prev, head, s, |s| - 1);
    assert Inserted(s, |s|, node) == s + [node];
  }

  /** The same call with a data node in place of the head: before that node. */
  method InsertBefore(node: Node, at: Node, ghost s: seq<Node>, ghost i: nat)
    requires Ring(s) && node !in s && 0 < i < |s| && at == s[i]
    modifies s`next, s`prev, node`next, node`prev
    ensures Ring(Inserted(s, i, node))
  {
    LinkAt(s, i - 1);
    AddNode(node, at.prev, at, s, i - 1);
  }

  /** cdll_delete_node: the node leaves the ring and is a ring of its own. */
  method DeleteNode(x: Node, ghost s: seq<Node>, ghost i: nat)
    requires Ring(s) && 0 < i < |s| && x == s[i]
    modifies s`next, s`prev
    ensures Ring(Removed(s, i)) && Ring([x]) && x !in Removed(s, i)
  {
    ghost var t := Removed(s, i);
    LinkAt(s, i - 1);
    LinkAt(s, i);
    assert forall k :: 0 <= k < |s| && k != i && k != i - 1 ==>
      s[k] != x && s[k] != s[i - 1] && Linked(s[k], s[After(k, |s|)]) && s[After(k, |s|)] != x
        && s[After(k, |s|)] != s[After(i, |s|)];
    x.prev.next := x.next;
    x.next.prev := x.prev;
    x.next, x.prev := x, x;
    forall k | 0 <= k < |t| ensures Linked(t[k], t[After(k, |t|)]) {
      if k < i - 1 { assert Linked(s[k], s[After(k, |s|)]); }
      else if k > i - 1 { assert Linked(s[k + 1], s[After(k + 1, |s|)]); }
    }
  }

  ghost function Swapped(s: seq<Node>, i: nat): seq<Node>
    requires i + 1 < |s|
  {
    s[i := s[i + 1]][i + 1 := s[i]]
  }

  /** cdll_swap_nodes, as the sort uses it, exchanges two neighbours. */
  method SwapNodes(oldFirst: Node, newFirst: Node, ghost s: seq<Node>, ghost i: nat, ghost all: set<Node>)
    requires Ring(s) && Within(s, all) && 0 < i && i + 1 < |s| && oldFirst == s[i] && newFirst == s[i + 1]
    modifies all`next, all`prev
    ensures Ring(Swapped(s, i))
  {
    if oldFirst != newFirst {
      DeleteNode(newFirst, s, i + 1);
      ghost var t := Removed(s, i + 1);
      assert t[i] == oldFirst;
      InsertBefore(newFirst, oldFirst, t, i);
      assert Inserted(t, i, newFirst) == Swapped(s, i);
    }
  }

  // ---- bubble sort ----

  /** compare_rssi: positive when the two are in the wrong order for a descending list. */
  function CompareRssi(a: Node, b: Node): int
    reads a`rssi, b`rssi
  {
    if a.rssi < b.rssi then 1 else 0
  }

  ghost predicate Descending(s: seq<Node>)
    reads s`rssi
  {
    forall i, j :: 0 <= i < j < |s| ==> s[i].rssi >= s[j].rssi
  }

  /** The nodes of one signal strength, in list order. */
  ghost function WithRssi(s: seq<Node>, v: int): seq<Node>
    reads s`rssi
  {
    if s == [] then [] else WithRssi(s[..|s| - 1], v) + if s[|s| - 1].rssi == v then [s[|s| - 1]] else []
  }

  /** Nodes of equal strength keep their order. */
  ghost predicate SameOrder(s: seq<Node>, t: seq<Node>)
    reads s`rssi, t`rssi
  {
    forall v :: WithRssi(s, v) == WithRssi(t, v)
  }

  lemma {:induction false} WithRssiConcat(a: seq<Node>, b: seq<Node>, v: int)
    ensures WithRssi(a + b, v) == WithRssi(a, v) + WithRssi(b, v)
    decreases |b|
  {
    if b == [] {
      assert a + b == a;
    } else {
      assert (a + b)[..|a + b| - 1] == a + b[..|b| - 1];
      WithRssiConcat(a, b[..|b| - 1], v);
    }
  }

  lemma WithRssiPair(x: Node, y: Node, v: int)
    requires x.rssi != y.rssi
    ensures WithRssi([x, y], v) == WithRssi([y, x], v)
  {
    assert [x, y][..1] == [x] && [y, x][..1] == [y] && [x][..0] == [] && [y][..0] == [];
  }

  lemma ExchangeKeepsOrder(a: seq<Node>, x: Node, y: Node, b: seq<Node>, v: int)
    requires x.rssi != y.rssi
    ensures WithRssi(a + [x, y] + b, v) == WithRssi(a + [y, x] + b, v)
  {
    WithRssiConcat(a + [x, y], b, v);
    WithRssiConcat(a, [x, y], v);
    WithRssiConcat(a + [y, x], b, v);
    WithRssiConcat(a, [y, x], v);
    WithRssiPair(x, y, v);
    hide WithRssi;
  }

  lemma SwapParts(s: seq<Node>, i: nat)
    requires i + 1 < |s|
    ensures s == s[..i] + [s[i], s[i + 1]] + s[i + 2..]
    ensures Swapped(s, i) == s[..i] + [s[i + 1], s[i]] + s[i + 2..]
  {
  }

  lemma SwapKeepsOrder(s: seq<Node>, i: nat)
    requires i + 1 < |s| && s[i].rssi != s[i + 1].rssi
    ensures SameOrder(s, Swapped(s, i))
    ensures multiset(Swapped(s, i)) == multiset(s)
  {
    SwapParts(s, i);
    assert multiset(Swapped(s, i)) == multiset(s);
    hide WithRssi, Swapped;
    forall v ensures WithRssi(s, v) == WithRssi(Swapped(s, i), v) {
      ExchangeKeepsOrder(s[..i], s[i], s[i + 1], s[i + 2..], v);
    }
  }

  /** Everything from index `m` on is final: in order, and not stronger than anything before. */
  ghost predicate FinalFrom(s: seq<Node>, m: nat)
    reads s`rssi
  {
    forall i, j :: 1 <= i < j < |s| && m <= j ==> s[i].rssi >= s[j].rssi
  }

  /** Node `c` is the weakest of the pass so far. */
  ghost predicate WeakestAt(s: seq<Node>, c: nat)
    reads s`rssi
  {
    c < |s| && forall i :: 1 <= i < c ==> s[i].rssi >= s[c].rssi
  }

  ghost predicate DescendingTo(s: seq<Node>, c: nat)
    reads s`rssi
  {
    forall i, j :: 1 <= i < j <= c < |s| ==> s[i].rssi >= s[j].rssi
  }

  lemma SwapStep(s: seq<Node>, c: nat, m: nat)
    requires 1 <= c && c + 1 < m <= |s| && FinalFrom(s, m) && WeakestAt(s, c) && s[c].rssi < s[c + 1].rssi
    ensures FinalFrom(Swapped(s, c), m) && WeakestAt(Swapped(s, c), c + 1)
  {
  }

  lemma WeakestBecomesFinal(s: seq<Node>, m: nat)
    requires 2 <= m <= |s| && FinalFrom(s, m) && WeakestAt(s, m - 1)
    ensures FinalFrom(s, m - 1)
  {
  }

  lemma DescendingFurther(s: seq<Node>, c: nat)
    requires 1 <= c && c + 1 < |s| && DescendingTo(s, c) && s[c].rssi >= s[c + 1].rssi
    ensures DescendingTo(s, c + 1)
  {
  }

  lemma SameOrderTransitive(s: seq<Node>, t: seq<Node>, u: seq<Node>)
    requires SameOrder(s, t) && SameOrder(t, u)
    ensures SameOrder(s, u)
  {
  }

  /** The loop test by positions: the next node is `last` exactly at the end of the unsorted part. */
  lemma NextIsLast(s: seq<Node>, c: nat, m: nat)
    requires Ring(s) && 1 <= c < m <= |s|
    ensures s[c].next == (if m == |s| then s[0] else s[m]) <==> c + 1 == m
  {
    LinkAt(s, c);
  }

  /** One pass: the weakest node of the unsorted part ends right before `last`. */
  method Pass(head: Node, last: Node, ghost s: seq<Node>, ghost m: nat, ghost all: set<Node>)
    returns (curr: Node, swapped: bool, ghost t: seq<Node>)
    requires Ring(s) && Within(s, all) && s[0] == head && 2 <= m <= |s|
    requires last == (if m == |s| then head else s[m]) && FinalFrom(s, m)
    modifies all`next, all`prev
    ensures Ring(t) && Within(t, all) && |t| == |s| && t[0] == head && curr == t[m - 1] && FinalFrom(t, m - 1)
    ensures multiset(t) == multiset(s) && SameOrder(s, t)
    ensures swapped ==> m > 2
    ensures !swapped ==> t == s && DescendingTo(t, m - 1)
  {
    hide Ring, Within, SameOrder, FinalFrom, DescendingTo, WeakestAt;
    swapped := false;
    FirstLink(s);
    curr := head.next;
    t := s;
    ghost var c := 1;
    StartOfPass(s);
    NextIsLast(t, c, m);
    while curr.next != last
      invariant Ring(t) && Within(t, all) && |t| == |s| && t[0] == head && 1 <= c < m && curr == t[c]
      invariant last == if m == |s| then head else t[m]
      invariant FinalFrom(t, m) && WeakestAt(t, c)
      invariant multiset(t) == multiset(s) && SameOrder(s, t)
      invariant swapped ==> m > 2
      invariant !swapped ==> t == s && DescendingTo(t, c)
      invariant curr.next == last <==> c + 1 == m
      decreases m - c
    {
      ghost var before := t;
      var wrong;
      curr, wrong, t := Compare(curr, t, c, m, all);
      SameOrderTransitive(s, before, t);
      if !swapped && !wrong { DescendingFurther(t, c); }
      swapped := swapped || wrong;
      c := c + 1;
      NextIsLast(t, c, m);
    }
    WeakestBecomesFinal(t, m);
  }

  lemma FirstLink(s: seq<Node>)
    requires Ring(s) && |s| > 1
    ensures s[0].next == s[1]
  {
    LinkAt(s, 0);
  }

  lemma StartOfPass(s: seq<Node>)
    requires |s| > 1
    ensures WeakestAt(s, 1) && DescendingTo(s, 1) && SameOrder(s, s)
  {
  }

  /** One comparison of a pass. */
  method Compare(first: Node, ghost s: seq<Node>, ghost c: nat, ghost m: nat, ghost all: set<Node>)
    returns (curr: Node, swapped: bool, ghost t: seq<Node>)
    requires Ring(s) && Within(s, all) && 1 <= c && c + 1 < m <= |s| && first == s[c]
    requires FinalFrom(s, m) && WeakestAt(s, c)
    modifies all`next, all`prev
    ensures Ring(t) && Within(t, all) && |t| == |s| && t[0] == s[0] && curr == t[c + 1]
    ensures m < |s| ==> t[m] == s[m]
    ensures FinalFrom(t, m) && WeakestAt(t, c + 1)
    ensures multiset(t) == multiset(s) && SameOrder(s, t)
    ensures !swapped ==> t == s && s[c].rssi >= s[c + 1].rssi
  {
    LinkAt(s, c);
    if CompareRssi(first, first.next) > 0 {
      SwapStep(s, c, m);
      SwapKeepsOrder(s, c);
      SwapNodes(first, first.next, s, c, all);
      curr, swapped, t := first, true, Swapped(s, c);
    } else {
      curr, swapped, t := first.next, false, s;
    }
  }

  /** The sort terminates on every list, keeps the ring and its head, and yields the stable
      descending order of the nodes it was given. */
  method BubbleSort(head: Node, ghost s: seq<Node>) returns (ghost t: seq<Node>)
    requires Ring(s) && s[0] == head
    modifies s`next, s`prev
    ensures Ring(t) && |t| == |s| && t[0] == head
    ensures Descending(t[1..]) && multiset(t) == multiset(s) && SameOrder(s, t)
  {
    t := s;
    LinkAt(s, 0);
    ghost var all := set x | x in s;
    if head.next == head {
      NextIsHead(s);
      return;
    }
    hide Ring, SameOrder, FinalFrom, Descending, DescendingTo;
    StartOfSort(s);
    var last := head;
    ghost var m := |s|;
    var swapped := true;
    while swapped
      invariant Ring(t) && Within(t, all) && |t| == |s| && t[0] == head && multiset(t) == multiset(s) && SameOrder(s, t)
      invariant swapped ==> 2 <= m <= |s| && last == (if m == |s| then head else t[m]) && FinalFrom(t, m)
      invariant !swapped ==> Descending(t[1..])
      decreases swapped, m
    {
      ghost var before := t;
      last, swapped, t := Pass(head, last, t, m, all);
      SameOrderTransitive(s, before, t);
      if !swapped { NothingSwapped(t, m); }
      m := m - 1;
    }
  }

  lemma NextIsHead(s: seq<Node>)
    requires Ring(s) && s[0].next == s[0]
    ensures |s| == 1
  {
    LinkAt(s, 0);
  }

  lemma StartOfSort(s: seq<Node>)
    ensures FinalFrom(s, |s|) && SameOrder(s, s)
  {
  }

  /** A pass without a swap has found its part in order, and the rest was final. */
  lemma NothingSwapped(s: seq<Node>, m: nat)
    requires 2 <= m <= |s| && DescendingTo(s, m - 1) && FinalFrom(s, m - 1)
    ensures Descending(s[1..])
  {
    forall i, j | 0 <= i < j < |s[1..]| ensures s[1..][i].rssi >= s[1..][j].rssi {
      assert s[1..][i] == s[i + 1] && s[1..][j] == s[j + 1];
    }
  }
}
