/**
 The doubly linked sibling list. `next` ends in null, `prev` of every node but the first
 is its predecessor, and `prev` of the first node is the last one, which is how
 `add_item_to_array` finds the end.
 */
module SiblingList {
  import opened Strings
  import opened Tails
  import opened Json

  class Node {
    const key: Text
    var next: Node?
    var prev: Node?

    constructor (name: Text)
      ensures this.key == name && next == null && prev == null
    {
      this.key := name;
      next, prev := null, null;
    }
  }

  ghost predicate AllDifferent(ns: seq<Node>) {
    forall i, j | 0 <= i < j < |ns| :: ns[i] != ns[j]
  }

  function After(ns: seq<Node>, i: int): Node? {
    if 0 <= i < |ns| - 1 then ns[i+1] else null
  }

  function Before(ns: seq<Node>, i: int): Node? {
    if 0 < i < |ns| then ns[i-1] else null
  }

  /** Neighbours point at each other and the last node points at nothing; nothing is said of the first node's `prev`. */
  ghost predicate Chain(ns: seq<Node>)
    reads ns
  {
    && AllDifferent(ns)
    && (forall i {:trigger ns[i].next} | 0 <= i < |ns| :: ns[i].next == After(ns, i))
    && (forall i {:trigger ns[i].prev} | 0 < i < |ns| :: ns[i].prev == Before(ns, i))
  }

  function Head(ns: seq<Node>): Node? {
    if ns == [] then null else ns[0]
  }

  lemma RemovedDifferent(ns: seq<Node>, i: nat)
    requires i < |ns| && AllDifferent(ns)
    ensures AllDifferent(RemoveAt(ns, i))
  {}

  lemma AfterRemoved(ns: seq<Node>, i: nat, j: nat)
    requires i < |ns| && j < |ns| - 1
    ensures RemoveAt(ns, i)[j] == ns[if j < i then j else j + 1]
    ensures After(RemoveAt(ns, i), j) == After(ns, if j == i - 1 then i else if j < i then j else j + 1)
    ensures Before(RemoveAt(ns, i), j) == if j == 0 then null else Before(ns, if j <= i then j else j + 1)
  {}

  /** With the neighbours of node i joined, the nodes without it are a chain. */
  lemma Unlinked(ns: seq<Node>, i: nat)
    requires i < |ns| && AllDifferent(ns)
    requires forall k {:trigger ns[k].next} | 0 <= k < |ns| && k != i ::
      ns[k].next == After(ns, if k == i - 1 then i else k)
    requires forall k {:trigger ns[k].prev} | 0 < k < |ns| && k != i && (k != 1 || i != 0) ::
      ns[k].prev == Before(ns, if k == i + 1 then i else k)
    ensures Chain(RemoveAt(ns, i))
  {
    hide RemoveAt, After, Before, AllDifferent;
    var r := RemoveAt(ns, i);
    RemovedDifferent(ns, i);
    forall j | 0 <= j < |r|
      ensures r[j].next == After(r, j)
    {
      AfterRemoved(ns, i, j);
      var k := if j < i then j else j + 1;
      assert ns[k].next == After(ns, if k == i - 1 then i else k);
    }
    forall j | 0 < j < |r|
      ensures r[j].prev == Before(r, j)
    {
      AfterRemoved(ns, i, j);
      var k := if j < i then j else j + 1;
      assert ns[k].prev == Before(ns, if k == i + 1 then i else k);
    }
  }

  function InsertAt(ns: seq<Node>, i: nat, n: Node): seq<Node>
    requires i <= |ns|
  {
    ns[..i] + [n] + ns[i..]
  }

  lemma AfterInserted(ns: seq<Node>, i: nat, n: Node, j: nat)
    requires i < |ns| && j <= |ns|
    ensures |InsertAt(ns, i, n)| == |ns| + 1
    ensures InsertAt(ns, i, n)[j] == if j < i then ns[j] else if j == i then n else ns[j-1]
    ensures After(InsertAt(ns, i, n), j) == if j == i - 1 then n else if j < i then After(ns, j)
      else if j == i then ns[i] else After(ns, j - 1)
    ensures Before(InsertAt(ns, i, n), j) == if j == i + 1 then n else if j <= i then Before(ns, j)
      else Before(ns, j - 1)
  {}

  lemma InsertedDifferent(ns: seq<Node>, i: nat, n: Node)
    requires i < |ns| && AllDifferent(ns) && n !in ns
    ensures AllDifferent(InsertAt(ns, i, n))
  {}

  /** With the new node between node i and its predecessor, the nodes are a chain. */
  lemma Linked(ns: seq<Node>, i: nat, n: Node)
    requires i < |ns| && AllDifferent(ns) && n !in ns
    requires n.next == ns[i] && (i > 0 ==> n.prev == ns[i-1])
    requires forall k {:trigger ns[k].next} | 0 <= k < |ns| :: ns[k].next == if k == i - 1 then n else After(ns, k)
    requires forall k {:trigger ns[k].prev} | 0 < k < |ns| || k == i :: ns[k].prev == if k == i then n
      else Before(ns, k)
    ensures Chain(InsertAt(ns, i, n))
  {
    hide InsertAt, After, AllDifferent;
    var r := InsertAt(ns, i, n);
    InsertedDifferent(ns, i, n);
    AfterInserted(ns, i, n, 0);
    forall j | 0 <= j < |r|
      ensures r[j].next == After(r, j)
    {
      AfterInserted(ns, i, n, j);
      var k := if j < i then j else j - 1;
      assert j != i ==> ns[k].next == if k == i - 1 then n else After(ns, k);
    }
    forall j | 0 < j < |r|
      ensures r[j].prev == Before(r, j)
    {
      AfterInserted(ns, i, n, j);
      var k := if j < i then j else j - 1;
      assert j != i ==> ns[k].prev == if k == i then n else Before(ns, k);
    }
  }

  /** With the new node in node i's place, the nodes are a chain. */
  lemma Swapped(ns: seq<Node>, i: nat, n: Node)
    requires i < |ns| && AllDifferent(ns) && n !in ns
    requires n.next == After(ns, i) && (i > 0 ==> n.prev == Before(ns, i))
    requires forall k {:trigger ns[k].next} | 0 <= k < |ns| && k != i :: ns[k].next == if k == i - 1 then n
      else After(ns, k)
    requires forall k {:trigger ns[k].prev} | 0 < k < |ns| && k != i :: ns[k].prev == if k == i + 1 then n
      else Before(ns, k)
    ensures Chain(ns[i := n])
  {
    hide AllDifferent;
    var r := ns[i := n];
    assert AllDifferent(r) by { SwappedDifferent(ns, i, n); }
    forall j | 0 <= j < |r|
      ensures r[j].next == After(r, j)
    {
      assert j != i ==> ns[j].next == if j == i - 1 then n else After(ns, j);
    }
    forall j | 0 < j < |r|
      ensures r[j].prev == Before(r, j)
    {
      assert j != i ==> ns[j].prev == if j == i + 1 then n else Before(ns, j);
    }
  }

  lemma SwappedDifferent(ns: seq<Node>, i: nat, n: Node)
    requires i < |ns| && AllDifferent(ns) && n !in ns
    ensures AllDifferent(ns[i := n])
  {}

  /** The nodes up to node i, with the new node behind node i, are a chain. */
  lemma Cut(ns: seq<Node>, i: nat, n: Node)
    requires i < |ns| && AllDifferent(ns) && n !in ns
    requires n.next == null && n.prev == ns[i] && ns[i].next == n
    requires forall k {:trigger ns[k].next} | 0 <= k < i :: ns[k].next == After(ns, k)
    requires forall k {:trigger ns[k].prev} | 0 < k <= i :: ns[k].prev == Before(ns, k)
    ensures Chain(ns[..i+1] + [n])
  {
    var r := ns[..i+1] + [n];
    assert AllDifferent(r);
    forall j | 0 <= j < |r|
      ensures r[j].next == After(r, j)
    {
      assert j < i ==> ns[j].next == After(ns, j);
    }
    forall j | 0 < j < |r|
      ensures r[j].prev == Before(r, j)
    {
      assert j <= i ==> ns[j].prev == Before(ns, j);
    }
  }

  /** A node, its neighbours and the first and the last node are different from all others. */
  lemma Separate(ns: seq<Node>, i: nat)
    requires i < |ns| && AllDifferent(ns)
    ensures forall k | 0 <= k < |ns| && k != i :: ns[k] != ns[i]
    ensures i > 0 ==> forall k | 0 <= k < |ns| && k != i - 1 :: ns[k] != ns[i-1]
    ensures i < |ns| - 1 ==> forall k | 0 <= k < |ns| && k != i + 1 :: ns[k] != ns[i+1]
    ensures forall k | 0 < k < |ns| :: ns[k] != ns[0]
    ensures forall k | 0 <= k < |ns| - 1 :: ns[k] != ns[|ns|-1]
  {}

  /** Where the node that stood at place `last` stands once node i is out. */
  lemma EndMoved(ns: seq<Node>, i: nat, last: nat, end: Node?)
    requires i < |ns| && AllDifferent(ns)
    requires |ns| > 1 ==> end == if i == |ns| - 1 then ns[i-1] else if last < |ns| then ns[last] else null
    ensures |ns| > 1 && i < |ns| - 1 && last < |ns| && last != i ==>
      end in RemoveAt(ns, i) && PlaceIn(RemoveAt(ns, i), end) == if last > i then last - 1 else last
    ensures |ns| > 1 && i == |ns| - 1 ==> end in RemoveAt(ns, i) && PlaceIn(RemoveAt(ns, i), end) == |ns| - 2
    ensures |ns| > 1 && i < |ns| - 1 && last == i ==> end == ns[i] && end !in RemoveAt(ns, i)
  {
    var r := RemoveAt(ns, i);
    RemovedDifferent(ns, i);
    if |ns| > 1 && i < |ns| - 1 && last < |ns| && last != i {
      PlaceIs(r, if last > i then last - 1 else last);
    }
    if |ns| > 1 && i == |ns| - 1 {
      PlaceIs(r, i - 1);
    }
  }

  /** The place of a node. */
  function PlaceIn(ns: seq<Node>, n: Node): (i: nat)
    ensures i <= |ns| && (i < |ns| <==> n in ns)
    ensures i < |ns| ==> ns[i] == n
  {
    if ns == [] || ns[0] == n then 0 else 1 + PlaceIn(ns[1..], n)
  }

  lemma PlaceIs(ns: seq<Node>, i: nat)
    requires i < |ns| && AllDifferent(ns)
    ensures PlaceIn(ns, ns[i]) == i
  {}

  /** An array or object node, as the owner of its children. */
  class Parent {
    var child: Node?
    ghost var nodes: seq<Node>

    ghost predicate Valid()
      reads this, nodes
    {
      child == Head(nodes) && Chain(nodes) && (nodes != [] ==> nodes[0].prev == nodes[|nodes|-1])
    }

    constructor ()
      ensures Valid() && nodes == []
    {
      child, nodes := null, [];
    }

    /** `get_array_item`. */
    method GetArrayItem(index: nat) returns (item: Node?)
      requires Valid()
      ensures item == if index < |nodes| then nodes[index] else null
    {
      item := child;
      var left := index;
      while item != null && left > 0
        invariant 0 <= left <= index && index - left <= |nodes|
        invariant item == if index - left < |nodes| then nodes[index - left] else null
        decreases left
      {
        item, left := item.next, left - 1;
      }
    }

    /** A well-formed list, except that the first node's `prev` may lead to any of the nodes or to none. */
    ghost predicate Anchored()
      reads this, nodes
    {
      child == Head(nodes) && Chain(nodes) && (nodes != [] ==> child.prev == null || child.prev in nodes)
    }

    /** Where that `prev` leads. */
    ghost function TailOf(): Tail
      requires Anchored()
      reads this, nodes
    {
      if nodes == [] then Last
      else if child.prev == null then Lost
      else TailAt(PlaceIn(nodes, child.prev), |nodes|)
    }

    lemma ValidTail()
      requires Anchored()
      ensures Valid() <==> TailOf() == Last
    {
      if nodes != [] && child.prev != null {
        PlaceIs(nodes, |nodes| - 1);
      }
    }

    /** `add_item_to_array`, for an item that belongs to no list. It trusts the first node's `prev`: where that is null
     the item is lost, and where it is a node before the last, the item takes the place of all nodes behind it. */
    method AddItemToArray(item: Node)
      requires Anchored() && item !in nodes && item.next == null
      modifies this, item`next, item`prev, nodes`next, nodes`prev
      ensures Anchored() && nodes == Append(old(nodes), old(TailOf()), item)
      ensures TailOf() == AppendTail(old(nodes), old(TailOf()))
      ensures old(Valid()) ==> Valid() && nodes == old(nodes) + [item]
      ensures old(TailOf()) == Lost ==> item.prev == old(item.prev)
    {
      ValidTail();
      if child == null {
        child := item;
        item.prev := item;
        item.next := null;
        nodes := [item];
      } else if child.prev != null {
        ghost var i := PlaceIn(nodes, child.prev);
        child.prev.next := item;
        item.prev := child.prev;
        child.prev := item;
        Cut(nodes, i, item);
        nodes := nodes[..i+1] + [item];
        PlaceIs(nodes, i + 1);
      }
    }

    /** The relinking that both ways of detaching share. */
    method Relink(item: Node, ghost i: nat)
      requires Anchored() && i < |nodes| && nodes[i] == item
      modifies this, nodes`next, nodes`prev
      ensures child == Head(nodes) && Chain(nodes) && nodes == RemoveAt(old(nodes), i)
      ensures nodes != [] ==> child.prev == if i == |nodes| then old(nodes)[i-1] else old(child.prev)
      ensures item.next == null && item.prev == null
    {
      ghost var ns := nodes;
      assert item.next == After(ns, i) && (i > 0 ==> item.prev == Before(ns, i));
      Separate(ns, i);
      hide AllDifferent, RemoveAt;
      if item != child {
        item.prev.next := item.next;
      }
      if item.next != null {
        item.next.prev := item.prev;
      }
      if item == child {
        child := item.next;
      } else if item.next == null {
        child.prev := item.prev;
      }
      item.prev := null;
      item.next := null;
      Unlinked(ns, i);
      nodes := RemoveAt(ns, i);
    }

    /** Taking a node out may leave the first node's `prev` leading to it. */
    method Unlink(item: Node, ghost i: nat)
      requires Anchored() && i < |nodes| && nodes[i] == item
      modifies this, nodes`next, nodes`prev
      ensures child == Head(nodes) && Chain(nodes) && nodes == RemoveAt(old(nodes), i)
      ensures var tail := RemoveTail(|old(nodes)|, old(TailOf()), i);
        if tail == Dangling then nodes != [] && child.prev == item else Anchored() && TailOf() == tail
      ensures old(Valid()) ==> Valid()
      ensures item.next == null && item.prev == null
    {
      ghost var ns, last := nodes, if child.prev == null then |nodes| else PlaceIn(nodes, child.prev);
      ValidTail();
      Relink(item, i);
      EndMoved(ns, i, last, if child == null then null else child.prev);
      assert last == i ==> item !in nodes;
      if Anchored() {
        ValidTail();
      }
    }

    /** `cJSON_DetachItemViaPointer`. */
    method DetachItemViaPointer(item: Node, ghost i: nat)
      requires Anchored() && i < |nodes| && nodes[i] == item
      modifies this, nodes`next, nodes`prev
      ensures child == Head(nodes) && Chain(nodes) && nodes == RemoveAt(old(nodes), i)
      ensures var tail := RemoveTail(|old(nodes)|, old(TailOf()), i);
        if tail == Dangling then nodes != [] && child.prev == item else Anchored() && TailOf() == tail
      ensures old(Valid()) ==> Valid()
      ensures item.next == null && item.prev == null
    {
      Unlink(item, i);
    }

    /** `detach_item_from_array` of the patch layer. */
    method DetachItemFromArray(which: nat) returns (c: Node?)
      requires Valid()
      modifies this, nodes`next, nodes`prev
      ensures Valid()
      ensures which >= |old(nodes)| ==> c == null && nodes == old(nodes)
      ensures which < |old(nodes)| ==>
        c == old(nodes)[which] && nodes == RemoveAt(old(nodes), which) && c.next == null && c.prev == null
    {
      c := GetArrayItem(which);
      if c != null {
        Unlink(c, which);
      }
    }

    /** `insert_item_in_array` of the patch layer: it refuses to leave a gap. */
    method InsertItemAt(which: nat, newitem: Node) returns (ok: bool)
      requires Valid() && newitem !in nodes && newitem.next == null
      modifies this, newitem`next, newitem`prev, nodes`next, nodes`prev
      ensures Valid() && ok == (which <= |old(nodes)|)
      ensures nodes == if ok then InsertAt(old(nodes), which, newitem) else old(nodes)
    {
      var c, left := child, which;
      while c != null && left > 0
        invariant 0 <= left <= which && which - left <= |nodes|
        invariant c == if which - left < |nodes| then nodes[which - left] else null
        decreases left
      {
        c, left := c.next, left - 1;
      }
      if left > 0 {
        return false;
      }
      if c == null {
        assert nodes[..which] == nodes && nodes[which..] == [];
        AddItemToArray(newitem);
        return true;
      }
      LinkBefore(c, which, newitem);
      return true;
    }

    /** `cJSON_InsertItemInArray`: past the end it appends. */
    method InsertItemInArray(which: int, newitem: Node) returns (ok: bool)
      requires Valid() && newitem !in nodes && newitem.next == null
      modifies this, newitem`next, newitem`prev, nodes`next, nodes`prev
      ensures Valid() && ok == (which >= 0)
      ensures nodes == if which < 0 then old(nodes)
        else if which < |old(nodes)| then InsertAt(old(nodes), which, newitem)
        else old(nodes) + [newitem]
    {
      if which < 0 {
        return false;
      }
      var after := GetArrayItem(which);
      if after == null {
        AddItemToArray(newitem);
        return true;
      }
      if after != child && after.prev == null {
        return false;
      }
      LinkBefore(after, which, newitem);
      return true;
    }

    /** The relinking that both insertions share. */
    method LinkBefore(c: Node, ghost i: nat, newitem: Node)
      requires Valid() && newitem !in nodes && i < |nodes| && nodes[i] == c
      modifies this, newitem`next, newitem`prev, nodes`next, nodes`prev
      ensures Valid() && nodes == InsertAt(old(nodes), i, newitem)
    {
      newitem.next := c;
      newitem.prev := c.prev;
      c.prev := newitem;
      if c == child {
        child := newitem;
      } else {
        newitem.prev.next := newitem;
      }
      Linked(nodes, i, newitem);
      nodes := InsertAt(nodes, i, newitem);
    }

    /** `cJSON_ReplaceItemViaPointer`; deleting the item it takes out is not part of this class. */
    method ReplaceItemViaPointer(item: Node, replacement: Node, ghost i: nat)
      requires Valid() && i < |nodes| && nodes[i] == item && (replacement == item || replacement !in nodes)
      modifies this, replacement`next, replacement`prev, nodes`next, nodes`prev
      ensures Valid() && nodes == old(nodes)[i := replacement]
      ensures replacement != item ==> item.next == null && item.prev == null
    {
      if replacement == item {
        return;
      }
      assert item.next == After(nodes, i) && (i > 0 ==> item.prev == Before(nodes, i));
      Separate(nodes, i);
      hide AllDifferent;
      replacement.next := item.next;
      replacement.prev := item.prev;
      if replacement.next != null {
        replacement.next.prev := replacement;
      }
      if child == item {
        if child.prev == child {
          replacement.prev := replacement;
        }
        child := replacement;
      } else {
        if replacement.prev != null {
          replacement.prev.next := replacement;
        }
        if replacement.next == null {
          child.prev := replacement;
        }
      }
      item.next := null;
      item.prev := null;
      Swapped(nodes, i, replacement);
      nodes := nodes[i := replacement];
    }
  }
}
