/**
 The child list of an array or object node: a doubly linked list whose first item has no predecessor,
 edited in place. Each edit is proved to do to the links what it does to the sequence of items.
 */
module ChildList {
  class Item {
    var next: Item?
    var prev: Item?

    constructor ()
      ensures next == null && prev == null
    {
      next, prev := null, null;
    }
  }

  function ItemAt(items: seq<Item>, k: int): Item? {
    if 0 <= k < |items| then items[k] else null
  }

  ghost predicate Distinct(items: seq<Item>) {
    forall i, j :: 0 <= i < j < |items| ==> items[i] != items[j]
  }

  /** The links of the items are those of a list from the first to the last. */
  ghost predicate Linked(items: seq<Item>)
    reads items
  {
    && Distinct(items)
    && (forall i {:trigger items[i].next} :: 0 <= i < |items| ==> items[i].next == ItemAt(items, i + 1))
    && (forall i {:trigger items[i].prev} :: 0 <= i < |items| ==> items[i].prev == ItemAt(items, i - 1))
  }

  ghost predicate Isolated(item: Item)
    reads item
  {
    item.next == null && item.prev == null
  }

  /** The links of all items but the k-th skip that one. */
  lemma LinkedWithout(s: seq<Item>, k: nat)
    requires Distinct(s) && k < |s|
    requires forall i {:trigger s[i].next} :: 0 <= i < |s| && i != k ==>
      s[i].next == ItemAt(s, if i + 1 == k then k + 1 else i + 1)
    requires forall i {:trigger s[i].prev} :: 0 <= i < |s| && i != k ==>
      s[i].prev == ItemAt(s, if i - 1 == k then k - 1 else i - 1)
    ensures Linked(s[..k] + s[k + 1..]) && s[k] !in s[..k] + s[k + 1..]
  {
    var n := s[..k] + s[k + 1..];
    forall i {:trigger n[i].next} | 0 <= i < |n| ensures n[i].next == ItemAt(n, i + 1) {
      assert n[i] == s[if i < k then i else i + 1];
    }
    forall i {:trigger n[i].prev} | 0 <= i < |n| ensures n[i].prev == ItemAt(n, i - 1) {
      assert n[i] == s[if i < k then i else i + 1];
    }
  }

  /** The links of all items lead through a new one in front of the k-th. */
  lemma LinkedWith(s: seq<Item>, k: nat, item: Item)
    requires Distinct(s) && k < |s| && item !in s
    requires item.next == s[k] && item.prev == ItemAt(s, k - 1)
    requires forall i {:trigger s[i].next} ::
      0 <= i < |s| ==> s[i].next == if i + 1 == k then item else ItemAt(s, i + 1)
    requires forall i {:trigger s[i].prev} :: 0 <= i < |s| ==> s[i].prev == if i == k then item else ItemAt(s, i - 1)
    ensures Linked(s[..k] + [item] + s[k..])
  {
    var n := s[..k] + [item] + s[k..];
    assert n[k] == item;
    forall i {:trigger n[i].next} | 0 <= i < |n| ensures n[i].next == ItemAt(n, i + 1) {
      if i != k {
        assert n[i] == s[if i < k then i else i - 1];
      }
    }
    forall i {:trigger n[i].prev} | 0 <= i < |n| ensures n[i].prev == ItemAt(n, i - 1) {
      if i != k {
        assert n[i] == s[if i < k then i else i - 1];
      }
    }
  }

  class Node {
    var child: Item?
    ghost var items: seq<Item>

    constructor ()
      ensures Valid() && items == []
    {
      child, items := null, [];
    }

    ghost predicate Valid()
      reads this, items
    {
      child == ItemAt(items, 0) && Linked(items)
    }

    /** The item at an index, or nothing behind the end of the list. */
    method GetArrayItem(index: nat) returns (item: Item?)
      requires Valid()
      ensures item == ItemAt(items, index)
    {
      item := child;
      var k := index;
      while item != null && k > 0
        invariant 0 <= k <= index && item == ItemAt(items, index - k)
        decreases k
      {
        assert item == items[index - k] && items[index - k].next == ItemAt(items, index - k + 1);
        k := k - 1;
        item := item.next;
      }
    }

    /** Appends an item. */
    method AddItem(item: Item)
      requires Valid() && item !in items && Isolated(item)
      modifies this, items, item
      ensures Valid() && items == old(items) + [item]
    {
      if child == null {
        child := item;
      } else {
        var last := child;
        ghost var k := 0;
        while last.next != null
          invariant k < |items| && last == items[k]
          invariant Valid() && item !in items && Isolated(item)
          decreases |items| - k
        {
          last := last.next;
          k := k + 1;
        }
        last.next := item;
        item.prev := last;
      }
      items := items + [item];
    }

    /** Inserts an item in front of the one at an index; behind the end it is appended. */
    method InsertItem(which: int, item: Item)
      requires Valid() && item !in items && Isolated(item)
      modifies this, items, item
      ensures Valid()
      ensures which < 0 ==> items == old(items)
      ensures 0 <= which ==>
        var k := if which < |old(items)| then which else |old(items)|;
        items == old(items)[..k] + [item] + old(items)[k..]
    {
      if which < 0 {
        return;
      }
      var after := GetArrayItem(which);
      if after == null {
        AddItem(item);
        return;
      }
      item.next := after;
      item.prev := after.prev;
      after.prev := item;
      if after == child {
        child := item;
      } else {
        item.prev.next := item;
      }
      LinkedWith(items, which, item);
      items := items[..which] + [item] + items[which..];
    }

    /** Takes an item out of the list and isolates it. */
    method DetachItem(item: Item, ghost k: nat)
      requires Valid() && k < |items| && items[k] == item
      modifies this, items
      ensures Valid() && items == old(items)[..k] + old(items)[k + 1..]
      ensures Isolated(item) && item !in items
    {
      if item.prev != null {
        item.prev.next := item.next;
      }
      if item.next != null {
        item.next.prev := item.prev;
      }
      if item == child {
        child := item.next;
      }
      item.prev := null;
      item.next := null;
      LinkedWithout(items, k);
      items := items[..k] + items[k + 1..];
    }

    method DetachFromArray(which: int) returns (item: Item?)
      requires Valid()
      modifies this, items
      ensures Valid()
      ensures item == if which < 0 then null else ItemAt(old(items), which)
      ensures item == null ==> items == old(items)
      ensures item != null ==>
        items == old(items)[..which] + old(items)[which + 1..] && Isolated(item) && item !in items
    {
      if which < 0 {
        return null;
      }
      item := GetArrayItem(which);
      if item != null {
        DetachItem(item, which);
      }
    }

    /** Puts another item in the place of one and isolates that one. */
    method ReplaceItem(item: Item, replacement: Item, ghost k: nat)
      requires Valid() && k < |items| && items[k] == item
      requires replacement == item || (replacement !in items && Isolated(replacement))
      modifies this, items, replacement
      ensures Valid() && items == old(items)[k := replacement]
      ensures replacement != item ==> Isolated(item)
    {
      if replacement == item {
        return;
      }
      replacement.next := item.next;
      replacement.prev := item.prev;
      if replacement.next != null {
        replacement.next.prev := replacement;
      }
      if replacement.prev != null {
        replacement.prev.next := replacement;
      }
      if child == item {
        child := replacement;
      }
      item.next := null;
      item.prev := null;
      ghost var s, n := items, items[k := replacement];
      forall i {:trigger n[i].next} | 0 <= i < |n| ensures n[i].next == ItemAt(n, i + 1) {
        assert i != k ==> n[i] == s[i];
        assert i != k && i != k - 1 ==> n[i].next == ItemAt(s, i + 1);
      }
      forall i {:trigger n[i].prev} | 0 <= i < |n| ensures n[i].prev == ItemAt(n, i - 1) {
        assert i != k ==> n[i] == s[i];
        assert i != k && i != k + 1 ==> n[i].prev == ItemAt(s, i - 1);
      }
      items := n;
    }

    method ReplaceInArray(which: int, replacement: Item)
      requires Valid() && replacement !in items && Isolated(replacement)
      modifies this, items, replacement
      ensures Valid()
      ensures items == if 0 <= which < |old(items)| then old(items)[which := replacement] else old(items)
    {
      if which < 0 {
        return;
      }
      var item := GetArrayItem(which);
      if item != null {
        ReplaceItem(item, replacement, which);
      }
    }

    method ApplyEdit(e: Edit)
      requires Valid() && (!e.Detach? ==> e.item !in items && Isolated(e.item))
      modifies this, items, if e.Detach? then {} else {e.item}
      ensures Valid() && items == Apply(old(items), e)
    {
      ghost var s := items;
      assert s[..|s|] == s && s[|s|..] == [];
      match e {
        case Add(item) => AddItem(item);
        case Insert(which, item) => InsertItem(which, item);
        case Detach(which) => var item := DetachFromArray(which);
        case Replace(which, item) => ReplaceInArray(which, item);
      }
    }

    /** Any run of edits with new items keeps the links in order and does to them what it does to the sequence. */
    method Edit(edits: seq<Edit>)
      requires Valid() && NewItems(edits, items)
      requires forall i :: 0 <= i < |edits| && !edits[i].Detach? ==> Isolated(edits[i].item)
      modifies this, items, Added(edits)
      ensures Valid() && items == ApplyAll(old(items), edits)
      decreases |edits|
    {
      if edits != [] {
        var e, rest := edits[0], edits[1..];
        AddedStep(edits);
        ApplyEdit(e);
        AppliedItems(old(items), e);
        assert forall i :: 0 <= i < |rest| ==> rest[i] == edits[i + 1];
        Edit(rest);
      }
    }
  }

  // ---------------------------------------------------------------- the same edits on a sequence

  datatype Edit =
    | Add(item: Item)
    | Insert(which: int, item: Item)
    | Detach(which: int)
    | Replace(which: int, item: Item)

  function Apply(s: seq<Item>, e: Edit): seq<Item> {
    match e
    case Add(item) => s + [item]
    case Insert(which, item) =>
      if which < 0 then s
      else if which >= |s| then s + [item]
      else s[..which] + [item] + s[which..]
    case Detach(which) => if 0 <= which < |s| then s[..which] + s[which + 1..] else s
    case Replace(which, item) => if 0 <= which < |s| then s[which := item] else s
  }

  function ApplyAll(s: seq<Item>, edits: seq<Edit>): seq<Item>
    decreases |edits|
  {
    if edits == [] then s else ApplyAll(Apply(s, edits[0]), edits[1..])
  }

  ghost function Added(edits: seq<Edit>): set<Item> {
    set e | e in edits && !e.Detach? :: e.item
  }

  /** The items of the edits differ from each other and from those of the list. */
  ghost predicate NewItems(edits: seq<Edit>, items: seq<Item>) {
    && (forall i :: 0 <= i < |edits| && !edits[i].Detach? ==> edits[i].item !in items)
    && (forall i, j ::
      0 <= i < j < |edits| && !edits[i].Detach? && !edits[j].Detach? ==> edits[i].item != edits[j].item)
  }

  lemma AddedStep(edits: seq<Edit>)
    requires edits != []
    ensures Added(edits[1..]) <= Added(edits) && (!edits[0].Detach? ==> edits[0].item in Added(edits))
    ensures forall i :: 0 <= i < |edits| && !edits[i].Detach? ==> edits[i].item in Added(edits)
  {
    assert forall e :: e in edits[1..] ==> e in edits;
    assert edits[0] in edits;
  }

  lemma AppliedItems(s: seq<Item>, e: Edit)
    ensures forall x :: x in Apply(s, e) ==> x in s || (!e.Detach? && x == e.item)
  {
  }

  /** What an insertion does, detaching at the same index undoes; replacing is detaching and inserting. */
  lemma InsertUndone(s: seq<Item>, which: nat, item: Item)
    requires which <= |s|
    ensures Apply(Apply(s, Insert(which, item)), Detach(which)) == s
    ensures which < |s| ==> Apply(Apply(s, Detach(which)), Insert(which, item)) == Apply(s, Replace(which, item))
  {
  }
}
