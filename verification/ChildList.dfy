/** The doubly linked child lists of JSON arrays and objects, edited in place. */
module ChildList {

  class Node {
    var next: Node?
    var prev: Node?
    var child: Node?

    /** The children of this node, in list order. */
    ghost var items: seq<Node>

    /**
     The pointers spell out `items`: `child` is the head, `next` and `prev` are mutually inverse along the
     list, `prev` is null at the head and `next` at the end.
     */
    ghost predicate Valid()
      reads this, items
    {
      && this !in items
      && (forall i, j :: 0 <= i < j < |items| ==> items[i] != items[j])
      && child == (if items == [] then null else items[0])
      && (forall i {:trigger items[i].prev} :: 0 <= i < |items| ==>
            items[i].prev == if i == 0 then null else items[i - 1])
      && (forall i {:trigger items[i].next} :: 0 <= i < |items| ==>
            items[i].next == if i == |items| - 1 then null else items[i + 1])
    }

    /** A node that belongs to no list. */
    ghost predicate Loose(item: Node)
      reads this, item
    {
      item != this && item !in items && item.next == null && item.prev == null
    }

    constructor ()
      ensures Valid() && items == [] && next == null && prev == null
    {
      next, prev, child, items := null, null, null, [];
    }

    method GetArraySize() returns (n: nat)
      requires Valid()
      ensures n == |items|
    {
      n := 0;
      var c := child;
      while c != null
        invariant n <= |items| && c == if n == |items| then null else items[n]
        decreases |items| - n
      {
        n := n + 1;
        c := c.next;
      }
    }

    /** Negative indices find the first child, indices past the end find none. */
    method GetArrayItem(item: int) returns (c: Node?)
      requires Valid()
      ensures c == ItemAt(items, item)
    {
      c := child;
      var left := item;
      ghost var k := 0;
      while c != null && left > 0
        invariant 0 <= k <= |items| && c == if k == |items| then null else items[k]
        invariant k == 0 ==> left == item
        invariant k > 0 ==> left == item - k && left >= 0
        decreases |items| - k
      {
        left := left - 1;
        c := c.next;
        k := k + 1;
      }
    }

    method AddItemToArray(item: Node?)
      requires Valid() && (item != null ==> Loose(item))
      modifies this`child, this`items, items`next, (if item == null then {} else {item})`prev
      ensures Valid()
      ensures items == if item == null then old(items) else old(items) + [item]
    {
      if item == null {
        return;
      }
      var c := child;
      if c == null {
        child := item;
      } else {
        ghost var k := 0;
        while c.next != null
          invariant 0 <= k < |items| && c == items[k]
          decreases |items| - k
        {
          c := c.next;
          k := k + 1;
        }
        c.next := item;
        item.prev := c;
      }
      items := items + [item];
    }

    method AddItemToArrayHead(item: Node?)
      requires Valid() && (item != null ==> Loose(item))
      modifies this`child, this`items, items`prev, (if item == null then {} else {item})`prev,
               (if item == null then {} else {item})`next
      ensures Valid()
      ensures items == if item == null then old(items) else [item] + old(items)
    {
      if item == null {
        return;
      }
      var c := child;
      if c == null {
        child := item;
      } else {
        item.prev := c.prev;
        item.next := c;
        c.prev := item;
        child := item;
      }
      items := [item] + items;
    }

    method DetachItemFromArray(which: int) returns (c: Node?)
      requires Valid()
      modifies this`child, this`items, items`next, items`prev
      ensures Valid()
      ensures c == ItemAt(old(items), which)
      ensures items == if c == null then old(items) else Without(old(items), Index(which))
      ensures c != null ==> Loose(c)
    {
      c := GetArrayItem(which);
      if c == null {
        return;
      }
      ghost var k := Index(which);
      if c.prev != null {
        c.prev.next := c.next;
      }
      if c.next != null {
        c.next.prev := c.prev;
      }
      if c == child {
        child := c.next;
      }
      c.prev, c.next := null, null;
      items := Without(items, k);
    }

    /** The replaced child is detached (and then deleted). */
    method ReplaceItemInArray(which: int, newitem: Node)
      requires Valid() && Loose(newitem)
      modifies this`child, this`items, items`next, items`prev, newitem`next, newitem`prev
      ensures Valid()
      ensures items == if ItemAt(old(items), which) == null then old(items) else old(items)[Index(which) := newitem]
      ensures ItemAt(old(items), which) != null ==> Loose(ItemAt(old(items), which))
    {
      var c := GetArrayItem(which);
      if c == null {
        return;
      }
      ghost var k := Index(which);
      newitem.next := c.next;
      newitem.prev := c.prev;
      if newitem.next != null {
        newitem.next.prev := newitem;
      }
      if c == child {
        child := newitem;
      } else {
        newitem.prev.next := newitem;
      }
      c.next, c.prev := null, null;
      items := items[k := newitem];
    }
  }

  /** The list position an index argument denotes: counting down stops at the first child. */
  function Index(which: int): nat {
    if which > 0 then which else 0
  }

  ghost function ItemAt(items: seq<Node>, which: int): Node? {
    if Index(which) < |items| then items[Index(which)] else null
  }

  ghost function Without(items: seq<Node>, k: nat): seq<Node>
    requires k < |items|
  {
    items[..k] + items[k + 1..]
  }
}
