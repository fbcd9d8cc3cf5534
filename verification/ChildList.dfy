/** The sibling lists of cJSON items: `next` ends in NULL, the first item's `prev` is the last item. */
module ChildList {
  import opened Bytes

  class Item {
    var next: Item?
    var prev: Item?
    var child: Item?

    /** cJSON_New_Item */
    constructor ()
      ensures next == prev == child == null
    {
      next, prev, child := null, null, null;
    }
  }

  /** Both links of position `i` of the list `s`. */
  ghost predicate LinksAt(s: seq<Item>, i: nat)
    requires i < |s|
    reads s`next, s`prev
  {
    && s[i].next == (if i + 1 < |s| then s[i + 1] else null)
    && s[i].prev == s[if i > 0 then i - 1 else |s| - 1]
  }

  /** The children of `parent` are the items `s`, each once. */
  ghost predicate Children(parent: Item, s: seq<Item>)
    reads parent`child, s`next, s`prev
  {
    && parent !in s && Distinct(s)
    && parent.child == (if s == [] then null else s[0])
    && forall i :: 0 <= i < |s| ==> LinksAt(s, i)
  }

  lemma ChildAt(parent: Item, s: seq<Item>, i: nat)
    requires Children(parent, s) && i < |s|
    ensures LinksAt(s, i) && parent.child != null
  {
  }

  lemma RemovedItems(s: seq<Item>, i: nat, parent: Item)
    requires Distinct(s) && i < |s| && parent !in s
    ensures Distinct(s[..i] + s[i + 1..]) && parent !in s[..i] + s[i + 1..]
  {
    var t := s[..i] + s[i + 1..];
    assert forall k :: 0 <= k < |t| ==> t[k] == s[if k < i then k else k + 1];
  }

  lemma InsertedItems(s: seq<Item>, i: nat, x: Item, parent: Item)
    requires Distinct(s) && i <= |s| && x !in s && parent !in s && parent != x
    ensures Distinct(s[..i] + [x] + s[i..]) && parent !in s[..i] + [x] + s[i..]
  {
    var t := s[..i] + [x] + s[i..];
    assert forall k :: 0 <= k < |t| ==> t[k] == if k < i then s[k] else if k == i then x else s[k - 1];
  }

  /** get_array_item */
  method GetArrayItem(parent: Item, index: nat, ghost s: seq<Item>) returns (item: Item?)
    requires Children(parent, s)
    ensures item == if index < |s| then s[index] else null
  {
    var current := parent.child;
    var left := index;
    ghost var i := 0;
    while current != null && left > 0
      invariant 0 <= i <= |s| && i + left == index
      invariant current == if i < |s| then s[i] else null
      decreases left
    {
      ChildAt(parent, s, i);
      left := left - 1;
      current := current.next;
      i := i + 1;
    }
    item := current;
  }

  /** add_item_to_array: a fresh or detached item goes to the end. */
  method AddItem(parent: Item?, item: Item?, ghost s: seq<Item>) returns (ok: bool)
    requires parent != null && item != null && item != parent ==> Children(parent, s) && item !in s && item.next == null
    modifies if parent == null then {} else {parent}, item, s
    ensures ok == (parent != null && item != null && item != parent)
    ensures ok ==> Children(parent, s + [item])
    ensures !ok && parent != null ==> parent.child == old(parent.child)
  {
    if item == null || parent == null || parent == item { return false; }
    var child := parent.child;
    if child == null {
      parent.child := item;
      item.prev := item;
      item.next := null;
      assert s + [item] == [item];
    } else {
      ChildAt(parent, s, 0);
      ChildAt(parent, s, |s| - 1);
      if child.prev != null {
        var last := child.prev;
        last.next := item;
        item.prev := last;
        parent.child.prev := item;
      }
      ghost var t := s + [item];
      forall k | 0 <= k < |t| ensures LinksAt(t, k) {
        if k < |s| { assert t[k] == s[k] && old(LinksAt(s, k)); }
      }
    }
    return true;
  }

  /** cJSON_DetachItemViaPointer for a child of `parent`. */
  method DetachItem(parent: Item, item: Item, ghost s: seq<Item>, ghost i: nat) returns (r: Item?)
    requires Children(parent, s) && i < |s| && item == s[i]
    modifies parent`child, s`next, s`prev
    ensures r == item && item.next == item.prev == null
    ensures Children(parent, s[..i] + s[i + 1..])
  {
    ChildAt(parent, s, i);
    if item != parent.child && item.prev == null { return null; }
    RemovedItems(s, i, parent);
    Unlink(parent, item, s, i);
    hide Distinct;
    ghost var t := s[..i] + s[i + 1..];
    forall k | 0 <= k < |t| ensures LinksAt(t, k) {
      var j := if k < i then k else k + 1;
      assert t[k] == s[j] && old(LinksAt(s, j)) && old(LinksAt(s, i));
    }
    return item;
  }

  /** The pointers that change when item `i` leaves the list. */
  method Unlink(parent: Item, item: Item, ghost s: seq<Item>, ghost i: nat)
    requires parent !in s && Distinct(s) && i < |s| && item == s[i] && parent.child == s[0] && LinksAt(s, i)
    modifies parent`child, s`next, s`prev
    ensures item.next == item.prev == null && parent.child == if i == 0 then old(item.next) else s[0]
    ensures forall j :: 0 <= j < |s| && j != i ==> s[j].next == if j + 1 == i then old(item.next) else old(s[j].next)
    ensures forall j :: 0 <= j < |s| && j != i ==>
              s[j].prev == if j == i + 1 || (j == 0 && i + 1 == |s|) then old(item.prev) else old(s[j].prev)
  {
    if item != parent.child {
      item.prev.next := item.next;
    }
    if item.next != null {
      item.next.prev := item.prev;
    }
    if item == parent.child {
      parent.child := item.next;
    } else if item.next == null {
      parent.child.prev := item.prev;
    }
    item.prev := null;
    item.next := null;
  }

  /** cJSON_InsertItemInArray */
  method InsertItem(parent: Item, which: int, newItem: Item?, ghost s: seq<Item>) returns (ok: bool)
    requires Children(parent, s) && (newItem != null ==> newItem != parent && newItem !in s)
    requires newItem != null && which >= |s| ==> newItem.next == null
    modifies parent, newItem, s
    ensures ok == (which >= 0 && newItem != null)
    ensures ok ==> Children(parent, if which < |s| then s[..which] + [newItem] + s[which..] else s + [newItem])
    ensures !ok ==> Children(parent, s)
  {
    if which < 0 || newItem == null { return false; }
    var after := GetArrayItem(parent, which, s);
    if after == null {
      ok := AddItem(parent, newItem, s);
      return;
    }
    ok := InsertBefore(parent, after, which, newItem, s);
  }

  /** The part of cJSON_InsertItemInArray for an item that exists at that index. */
  method InsertBefore(parent: Item, after: Item, ghost which: nat, newItem: Item, ghost s: seq<Item>) returns (ok: bool)
    requires Children(parent, s) && which < |s| && after == s[which] && newItem != parent && newItem !in s
    modifies parent`child, newItem`next, newItem`prev, s`next, s`prev
    ensures ok && Children(parent, s[..which] + [newItem] + s[which..])
  {
    ChildAt(parent, s, which);
    if after != parent.child && after.prev == null { return false; }
    InsertedItems(s, which, newItem, parent);
    LinkBefore(parent, after, which, newItem, s);
    hide Distinct;
    ghost var t := s[..which] + [newItem] + s[which..];
    forall k | 0 <= k < |t| ensures LinksAt(t, k) {
      if k < which { assert t[k] == s[k] && old(LinksAt(s, k)); }
      else if k > which { assert t[k] == s[k - 1] && old(LinksAt(s, k - 1)); }
      else { assert t[k] == newItem && old(LinksAt(s, which)); }
    }
    return true;
  }

  /** The pointers that change when a new item comes before item `which`. */
  method LinkBefore(parent: Item, after: Item, ghost which: nat, newItem: Item, ghost s: seq<Item>)
    requires parent !in s && newItem !in s && newItem != parent && Distinct(s)
    requires which < |s| && after == s[which] && parent.child == s[0] && LinksAt(s, which)
    modifies parent`child, newItem`next, newItem`prev, s`next, s`prev
    ensures newItem.next == after && newItem.prev == old(after.prev)
    ensures parent.child == if which == 0 then newItem else s[0]
    ensures forall j :: 0 <= j < |s| ==> s[j].next == if j + 1 == which then newItem else old(s[j].next)
    ensures forall j :: 0 <= j < |s| ==> s[j].prev == if j == which then newItem else old(s[j].prev)
  {
    newItem.next := after;
    newItem.prev := after.prev;
    after.prev := newItem;
    if after == parent.child {
      parent.child := newItem;
    } else {
      newItem.prev.next := newItem;
    }
  }

  /** cJSON_ReplaceItemViaPointer for a child of `parent`, without freeing the old item. */
  method ReplaceItem(parent: Item, item: Item, replacement: Item?, ghost s: seq<Item>, ghost i: nat) returns (ok: bool)
    requires Children(parent, s) && i < |s| && item == s[i]
    requires replacement != null && replacement != item ==> replacement != parent && replacement !in s
    modifies parent`child, replacement, s`next, s`prev
    ensures ok == (replacement != null)
    ensures ok ==> Children(parent, s[i := replacement])
    ensures !ok ==> Children(parent, s)
    ensures ok && replacement != item ==> item.next == item.prev == null
  {
    ChildAt(parent, s, i);
    if replacement == null { return false; }
    if replacement == item { assert s[i := replacement] == s; return true; }
    Relink(parent, item, replacement, s, i);
    ghost var t := s[i := replacement];
    forall k | 0 <= k < |t| ensures LinksAt(t, k) {
      assert old(LinksAt(s, k)) && old(LinksAt(s, i)) && t[k] == if k == i then replacement else s[k];
    }
    return true;
  }

  /** The pointers that change when another item takes the place of item `i`. */
  method Relink(parent: Item, item: Item, replacement: Item, ghost s: seq<Item>, ghost i: nat)
    requires parent !in s && replacement !in s && replacement != parent && Distinct(s)
    requires i < |s| && item == s[i] && parent.child == s[0] && LinksAt(s, i)
    modifies parent`child, replacement, s`next, s`prev
    ensures item.next == item.prev == null && parent.child == if i == 0 then replacement else s[0]
    ensures replacement.next == old(item.next) && replacement.prev == if |s| == 1 then replacement else old(item.prev)
    ensures forall j :: 0 <= j < |s| && j != i ==> s[j].next == if j + 1 == i then replacement else old(s[j].next)
    ensures forall j :: 0 <= j < |s| && j != i ==>
              s[j].prev == if j == i + 1 || (j == 0 && i + 1 == |s|) then replacement else old(s[j].prev)
  {
    replacement.next := item.next;
    replacement.prev := item.prev;
    if replacement.next != null {
      replacement.next.prev := replacement;
    }
    if parent.child == item {
      if parent.child.prev == parent.child {
        replacement.prev := replacement;
      }
      parent.child := replacement;
    } else {
      if replacement.prev != null {
        replacement.prev.next := replacement;
      }
      if replacement.next == null {
        parent.child.prev := replacement;
      }
    }
    item.next := null;
    item.prev := null;
  }
}
