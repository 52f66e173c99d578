/** `sort_list` on the nodes themselves: a mergesort that relinks and never copies. */
module SortList {
  import opened Strings
  import opened Sorting
  import opened Tails
  import opened SiblingList

  /** The nodes as list elements; the value of an element is the node itself. */
  function Entries(ns: seq<Node>): (es: seq<Entry<Node>>)
    ensures |es| == |ns|
  {
    seq(|ns|, i requires 0 <= i < |ns| => Entry(ns[i].key, ns[i]))
  }

  ghost predicate Apart(a: seq<Node>, b: seq<Node>) {
    forall n | n in a :: n !in b
  }

  /** A chain whose last node may still point somewhere. */
  ghost predicate Segment(ns: seq<Node>)
    reads ns
  {
    && AllDifferent(ns)
    && (forall i {:trigger ns[i].next} | 0 <= i < |ns| - 1 :: ns[i].next == After(ns, i))
    && (forall i {:trigger ns[i].prev} | 0 < i < |ns| :: ns[i].prev == Before(ns, i))
  }

  lemma TailChain(ns: seq<Node>)
    requires Chain(ns) && ns != []
    ensures Chain(ns[1..]) && ns[0].next == Head(ns[1..]) && ns[0] !in ns[1..]
  {
    var t := ns[1..];
    forall i | 0 <= i < |t|
      ensures t[i].next == After(t, i)
    {
      assert ns[i+1].next == After(ns, i + 1);
    }
    forall i | 0 < i < |t|
      ensures t[i].prev == Before(t, i)
    {
      assert ns[i+1].prev == Before(ns, i + 1);
    }
    assert ns[0].next == After(ns, 0);
  }

  lemma Extended(ns: seq<Node>, n: Node)
    requires Segment(ns) && n !in ns
    requires ns != [] ==> ns[|ns|-1].next == n && n.prev == ns[|ns|-1]
    ensures Segment(ns + [n])
  {
    var r := ns + [n];
    assert AllDifferent(r);
    forall i | 0 <= i < |r| - 1
      ensures r[i].next == After(r, i)
    {
      assert i < |ns| - 1 ==> ns[i].next == After(ns, i);
    }
    forall i | 0 < i < |r|
      ensures r[i].prev == Before(r, i)
    {
      assert i < |ns| ==> ns[i].prev == Before(ns, i);
    }
  }

  lemma Empty()
    ensures Segment([]) && Chain([])
  {}

  lemma Joined(a: seq<Node>, b: seq<Node>)
    requires Segment(a) && Chain(b) && Apart(a, b) && a != [] && b != []
    requires a[|a|-1].next == b[0] && b[0].prev == a[|a|-1]
    ensures Chain(a + b)
  {
    var r := a + b;
    assert AllDifferent(r) by { JoinedDifferent(a, b); }
    hide AllDifferent, Apart;
    forall i | 0 <= i < |r|
      ensures r[i].next == After(r, i)
    {
      if i < |a| - 1 {
        assert a[i].next == After(a, i);
      } else if i >= |a| {
        assert b[i-|a|].next == After(b, i - |a|);
      }
    }
    forall i | 0 < i < |r|
      ensures r[i].prev == Before(r, i)
    {
      if i < |a| {
        assert a[i].prev == Before(a, i);
      } else if i > |a| {
        assert b[i-|a|].prev == Before(b, i - |a|);
      }
    }
  }

  lemma JoinedDifferent(a: seq<Node>, b: seq<Node>)
    requires AllDifferent(a) && AllDifferent(b) && Apart(a, b)
    ensures AllDifferent(a + b)
  {
    forall i, j | 0 <= i < j < |a + b|
      ensures (a + b)[i] != (a + b)[j]
    {
      if i < |a| <= j {
        assert a[i] in a && b[j-|a|] in b;
      }
    }
  }

  /** `tail->next = n; n->prev = tail;` */
  method Link(tail: Node, n: Node, ghost ns: seq<Node>)
    requires Segment(ns) && ns != [] && tail == ns[|ns|-1] && n !in ns
    modifies tail`next, n`prev
    ensures Segment(ns) && tail.next == n && n.prev == tail
  {
    assert forall i | 0 <= i < |ns| - 1 :: ns[i] != tail;
    tail.next := n;
    n.prev := tail;
  }

  /** One element goes to the end of the merged list; the two remainders stay as they are. */
  method Append(tail: Node, n: Node, ghost ns: seq<Node>, ghost a: seq<Node>, ghost b: seq<Node>)
    requires Segment(ns) && ns != [] && tail == ns[|ns|-1] && n !in ns
    requires Chain(a) && Chain(b) && tail !in a && tail !in b && n !in a && n !in b
    modifies tail`next, n`prev
    ensures Segment(ns + [n]) && Chain(a) && Chain(b)
  {
    Link(tail, n, ns);
    Extended(ns, n);
  }

  /** The smaller element goes to the end of the merged list, or starts it. */
  method Place(result: Node?, tail: Node?, n: Node, ghost ns: seq<Node>, ghost a: seq<Node>, ghost b: seq<Node>)
    returns (r: Node)
    requires result == Head(ns) && tail == (if ns == [] then null else ns[|ns|-1])
    requires Segment(ns) && Chain(a) && Chain(b)
    requires Apart(ns, a) && Apart(ns, b) && n !in ns && n !in a && n !in b
    modifies (if tail == null then {} else {tail})`next, (if tail == null then {} else {n})`prev
    ensures r == Head(ns + [n]) && r.prev == old(r.prev)
    ensures Segment(ns + [n]) && Chain(a) && Chain(b)
    ensures Entries(ns + [n]) == Entries(ns) + Entries([n])
  {
    EntriesAppend(ns, [n]);
    if result == null {
      r := n;
      Extended(ns, n);
    } else {
      assert tail in ns;
      Append(tail, n, ns, a, b);
      r := result;
    }
  }

  lemma Moved(ns: seq<Node>, a: seq<Node>, b: seq<Node>)
    requires a != [] && Apart(a, b) && Apart(ns, a) && Apart(ns, b) && a[0] !in a[1..]
    ensures a[0] !in ns && a[0] !in b
    ensures Apart(a[1..], b) && Apart(b, a[1..]) && Apart(ns, a[1..]) && Apart(ns + [a[0]], a[1..])
    ensures Apart(ns + [a[0]], b)
  {}

  lemma ApartEmpty(a: seq<Node>)
    ensures Apart([], a)
  {}

  lemma SameNodes(ns: seq<Node>, a: seq<Node>, b: seq<Node>, cs: bool)
    requires Entries(ns) == Merge(Entries(a), Entries(b), cs)
    ensures forall n :: n in ns <==> n in a || n in b
  {
    MergePermutes(Entries(a), Entries(b), cs);
    forall n
      ensures n in ns <==> n in a || n in b
    {
      InEntries(ns, n);
      InEntries(a, n);
      InEntries(b, n);
      assert Entry(n.key, n) in Entries(ns) <==> Entry(n.key, n) in multiset(Entries(ns));
    }
  }

  lemma InEntries(ns: seq<Node>, n: Node)
    ensures n in ns <==> Entry(n.key, n) in Entries(ns)
  {
    if n in ns {
      var i :| 0 <= i < |ns| && ns[i] == n;
      assert Entries(ns)[i] == Entry(n.key, n);
    }
  }

  lemma ApartSymmetric(a: seq<Node>, b: seq<Node>)
    requires Apart(a, b)
    ensures Apart(b, a)
  {}

  /** A whole remainder goes to the end of the merged list. */
  method AppendRest(tail: Node, first: Node, ghost ns: seq<Node>, ghost rest: seq<Node>)
    requires Segment(ns) && ns != [] && tail == ns[|ns|-1]
    requires Chain(rest) && first == Head(rest) && Apart(ns, rest)
    modifies tail`next, first`prev
    ensures Chain(ns + rest) && Entries(ns + rest) == Entries(ns) + Entries(rest)
  {
    assert tail in ns && first in rest;
    hide Segment;
    KeepsChain(tail, first, ns, rest);
    Joined(ns, rest);
    EntriesAppend(ns, rest);
  }

  /** The end of the merge: what remains of one list goes behind the merged one, or is the result. */
  method AppendRemaining(result: Node?, tail: Node?, first: Node, ghost ns: seq<Node>, ghost rest: seq<Node>)
    returns (r: Node)
    requires result == Head(ns) && tail == (if ns == [] then null else ns[|ns|-1])
    requires Segment(ns) && Chain(rest) && first == Head(rest) && Apart(ns, rest)
    modifies (if tail == null then {} else {tail})`next, first`prev
    ensures r == Head(ns + rest) && Chain(ns + rest)
    ensures r.prev == old(r.prev)
    ensures Entries(ns + rest) == Entries(ns) + Entries(rest)
  {
    hide Segment, Chain;
    EntriesAppend(ns, rest);
    assert [] + rest == rest;
    if result == null {
      return first;
    }
    assert tail in ns && first in rest;
    AppendRest(tail, first, ns, rest);
    return result;
  }

  method KeepsChain(tail: Node, first: Node, ghost ns: seq<Node>, ghost rest: seq<Node>)
    requires Segment(ns) && ns != [] && tail == ns[|ns|-1] && tail !in rest
    requires Chain(rest) && rest != [] && first == rest[0] && first !in ns
    modifies tail`next, first`prev
    ensures Segment(ns) && Chain(rest) && tail.next == first && first.prev == tail
  {
    assert forall i | 0 < i < |rest| :: rest[i] != first;
    Link(tail, first, ns);
  }

  lemma MergeStep(a: seq<Node>, b: seq<Node>, cs: bool)
    requires a != [] && b != []
    ensures CompareStrings(a[0].key, b[0].key, cs) < 0 ==>
      Merge(Entries(a), Entries(b), cs) == Entries([a[0]]) + Merge(Entries(a[1..]), Entries(b), cs)
    ensures CompareStrings(a[0].key, b[0].key, cs) >= 0 ==>
      Merge(Entries(a), Entries(b), cs) == Entries([b[0]]) + Merge(Entries(a), Entries(b[1..]), cs)
  {
    assert Entries(a)[1..] == Entries(a[1..]) && Entries(b)[1..] == Entries(b[1..]);
    assert Entries([a[0]]) == [Entries(a)[0]] && Entries([b[0]]) == [Entries(b)[0]];
  }

  lemma EntriesAppend(a: seq<Node>, b: seq<Node>)
    ensures Entries(a + b) == Entries(a) + Entries(b)
  {}

  /** One turn of the merging loop: the smaller of the two heads goes to the end of the merged list. */
  method TakeSmaller(result: Node?, tail: Node?, first: Node, second: Node, caseSensitive: bool, ghost ns: seq<Node>,
      ghost a: seq<Node>, ghost b: seq<Node>)
    returns (r: Node, smaller: Node, first': Node?, second': Node?, ghost a': seq<Node>, ghost b': seq<Node>)
    requires first == Head(a) && second == Head(b)
    requires result == Head(ns) && tail == (if ns == [] then null else ns[|ns|-1])
    requires Segment(ns) && Chain(a) && Chain(b) && Apart(a, b) && Apart(ns, a) && Apart(ns, b)
    modifies (if tail == null then {} else {tail})`next, (if tail == null then {} else {first, second})`prev
    ensures if CompareStrings(first.key, second.key, caseSensitive) < 0
            then smaller == first && a' == a[1..] && b' == b
            else smaller == second && a' == a && b' == b[1..]
    ensures first' == Head(a') && second' == Head(b') && r == Head(ns + [smaller]) && r.prev == old(r.prev)
    ensures Segment(ns + [smaller]) && Chain(a') && Chain(b')
    ensures Apart(a', b') && Apart(ns + [smaller], a') && Apart(ns + [smaller], b')
    ensures Entries(ns + [smaller]) + Merge(Entries(a'), Entries(b'), caseSensitive) ==
      Entries(ns) + Merge(Entries(a), Entries(b), caseSensitive)
  {
    hide Merge, AllDifferent, After, Before, Chain, Segment, Apart, Entries, CompareStrings;
    MergeStep(a, b, caseSensitive);
    TailChain(a);
    TailChain(b);
    ApartSymmetric(a, b);
    Moved(ns, a, b);
    Moved(ns, b, a);
    if CompareStrings(first.key, second.key, caseSensitive) < 0 {
      smaller, first', second', a', b' := first, first.next, second, a[1..], b;
    } else {
      smaller, first', second', a', b' := second, first, second.next, a, b[1..];
    }
    r := Place(result, tail, smaller, ns, a', b');
  }

  /** The merging loop of `sort_list`, up to the point where one list is used up. */
  method MergeWhileBoth(firstHead: Node?, secondHead: Node?, caseSensitive: bool, ghost a: seq<Node>,
      ghost b: seq<Node>)
    returns (result: Node?, resultTail: Node?, first: Node?, second: Node?, ghost out: seq<Node>, ghost a': seq<Node>,
      ghost b': seq<Node>)
    requires firstHead == Head(a) && secondHead == Head(b)
    requires Chain(a) && Chain(b) && Apart(a, b)
    modifies a`next, a`prev, b`next, b`prev
    ensures first == Head(a') && second == Head(b') && (first == null || second == null)
    ensures result == Head(out) && resultTail == if out == [] then null else out[|out|-1]
    ensures Chain(a') && Chain(b') && Segment(out)
    ensures Apart(a', b') && Apart(out, a') && Apart(out, b')
    ensures Entries(out) + Merge(Entries(a'), Entries(b'), caseSensitive) ==
      Merge(Entries(a), Entries(b), caseSensitive)
    ensures forall n | n in a' :: n in a
    ensures forall n | n in b' :: n in b
    ensures forall n | n in out :: n in a || n in b
    ensures if out == [] then a' == a && b' == b else a' != [] || b' != []
    ensures out == [] ==> first == firstHead && second == secondHead
    ensures firstHead != null && (result == firstHead || out == []) ==> firstHead.prev == old(firstHead.prev)
    ensures secondHead != null && (result == secondHead || out == []) ==> secondHead.prev == old(secondHead.prev)
    ensures out != [] ==> result == firstHead || result == secondHead
  {
    hide Merge, AllDifferent, After, Before, Chain, Segment, Apart, Entries, CompareStrings;
    first, second, a', b' := firstHead, secondHead, a, b;
    result, resultTail, out := null, null, [];
    Empty();
    ApartEmpty(a);
    ApartEmpty(b);
    assert Entries(out) == [];
    while first != null && second != null
      invariant first == Head(a') && second == Head(b') && result == Head(out)
      invariant resultTail == if out == [] then null else out[|out|-1]
      invariant Chain(a') && Chain(b') && Segment(out)
      invariant Apart(a', b') && Apart(out, a') && Apart(out, b')
      invariant Entries(out) + Merge(Entries(a'), Entries(b'), caseSensitive) ==
        Merge(Entries(a), Entries(b), caseSensitive)
      invariant forall n | n in a' :: n in a
      invariant forall n | n in b' :: n in b
      invariant forall n | n in out :: n in a || n in b
      invariant if out == [] then a' == a && b' == b else a' != [] || b' != []
      invariant out != [] ==> (result == firstHead || result == secondHead) && result.prev == old(result.prev)
      invariant out == [] ==> firstHead != null ==> firstHead.prev == old(firstHead.prev)
      invariant out == [] ==> secondHead != null ==> secondHead.prev == old(secondHead.prev)
      decreases |a'| + |b'|
    {
      assert first in a' && second in b';
      assert resultTail != null ==> resultTail in out;
      result, resultTail, first, second, a', b' :=
        TakeSmaller(result, resultTail, first, second, caseSensitive, out, a', b');
      out := out + [resultTail];
    }
  }

  /** The merge of two sorted lists in `sort_list`. */
  method MergeLists(firstHead: Node?, secondHead: Node?, caseSensitive: bool, ghost a: seq<Node>, ghost b: seq<Node>)
    returns (result: Node?, ghost out: seq<Node>)
    requires firstHead == Head(a) && secondHead == Head(b)
    requires Chain(a) && Chain(b) && Apart(a, b)
    modifies a`next, a`prev, b`next, b`prev
    ensures result == Head(out) && Chain(out)
    ensures Entries(out) == Merge(Entries(a), Entries(b), caseSensitive)
    ensures forall n :: n in out <==> n in a || n in b
    ensures out != [] ==> (result == firstHead || result == secondHead) && result.prev == old(result.prev)
  {
    hide Merge, AllDifferent, After, Before, Chain, Segment, Apart, Entries, CompareStrings;
    var resultTail, first, second;
    ghost var a', b';
    result, resultTail, first, second, out, a', b' := MergeWhileBoth(firstHead, secondHead, caseSensitive, a, b);
    MergeEnds(a', b', caseSensitive);
    assert resultTail != null ==> resultTail in out;
    if first != null {
      assert first in a';
      result := AppendRemaining(result, resultTail, first, out, a');
      out := out + a';
    } else if second != null {
      assert second in b';
      result := AppendRemaining(result, resultTail, second, out, b');
      out := out + b';
    } else {
      Empty();
    }
    SameNodes(out, a, b, caseSensitive);
  }

  lemma MergeEnds(a: seq<Node>, b: seq<Node>, cs: bool)
    ensures a == [] ==> Merge(Entries(a), Entries(b), cs) == Entries(b)
    ensures b == [] ==> Merge(Entries(a), Entries(b), cs) == Entries(a)
  {}

  predicate AscendingNodes(ns: seq<Node>, cs: bool) {
    forall i | 0 <= i < |ns| - 1 :: CompareStrings(ns[i].key, ns[i+1].key, cs) < 0
  }

  lemma AscendingEntries(ns: seq<Node>, cs: bool)
    ensures Ascending(Entries(ns), cs) <==> AscendingNodes(ns, cs)
  {
    var es := Entries(ns);
    forall i | 0 <= i < |ns| - 1
      ensures Compare(es[i], es[i+1], cs) == CompareStrings(ns[i].key, ns[i+1].key, cs)
    {}
  }

  /** The test that lets `sort_list` leave a strictly ascending list alone. */
  method IsAscending(list: Node?, caseSensitive: bool, ghost ns: seq<Node>) returns (sorted: bool)
    requires list == Head(ns) && Chain(ns) && |ns| > 1
    ensures sorted <==> AscendingNodes(ns, caseSensitive)
  {
    var currentItem := list;
    ghost var i := 0;
    assert ns[0].next == After(ns, 0);
    while currentItem.next != null && CompareStrings(currentItem.key, currentItem.next.key, caseSensitive) < 0
      invariant i < |ns| && currentItem == ns[i]
      invariant forall j | 0 <= j < i :: CompareStrings(ns[j].key, ns[j+1].key, caseSensitive) < 0
      decreases |ns| - i
    {
      currentItem := currentItem.next;
      i := i + 1;
    }
    sorted := currentItem.next == null;
  }

  /** Two pointers find the middle: one moves two nodes for each node of the other. */
  method Middle(list: Node?, ghost ns: seq<Node>) returns (second: Node?)
    requires list == Head(ns) && Chain(ns) && |ns| > 1
    ensures second == ns[(|ns| + 1) / 2]
  {
    second := list;
    var currentItem := list;
    ghost var k := 0;
    while currentItem != null
      invariant 0 <= k < |ns| && 2 * k <= |ns| + 1
      invariant second == ns[k]
      invariant currentItem == if 2 * k < |ns| then ns[2 * k] else null
      decreases |ns| - k
    {
      assert ns[k].next == After(ns, k);
      second := second.next;
      currentItem := currentItem.next;
      if currentItem != null {
        currentItem := currentItem.next;
      }
      k := k + 1;
    }
  }

  /** The two halves, once the link between them is cut. */
  method Split(second: Node, ghost ns: seq<Node>, ghost half: nat)
    requires Chain(ns) && 0 < half < |ns| && second == ns[half]
    modifies ns`next, ns`prev
    ensures Chain(ns[..half]) && Chain(ns[half..]) && Apart(ns[..half], ns[half..])
    ensures second.prev == null && ns[0].prev == old(ns[0].prev)
  {
    assert second.prev == Before(ns, half);
    ghost var a, b := ns[..half], ns[half..];
    forall i, j | 0 <= i < half <= j < |ns|
      ensures ns[i] != ns[j]
    {}
    assert forall i {:trigger a[i]} | 0 <= i < |a| :: a[i] == ns[i];
    assert forall i {:trigger b[i]} | 0 <= i < |b| :: b[i] == ns[half + i];
    if second.prev != null {
      second.prev.next := null;
      second.prev := null;
    }
  }

  lemma EntriesHalves(ns: seq<Node>, half: nat)
    requires half <= |ns|
    ensures Entries(ns)[..half] == Entries(ns[..half]) && Entries(ns)[half..] == Entries(ns[half..])
  {}

  lemma SortStep(ns: seq<Node>, cs: bool)
    ensures |ns| <= 1 || AscendingNodes(ns, cs) ==> MergeSort(Entries(ns), cs) == Entries(ns)
    ensures |ns| > 1 && !AscendingNodes(ns, cs) ==>
      var half := (|ns| + 1) / 2;
      MergeSort(Entries(ns), cs) == Merge(MergeSort(Entries(ns[..half]), cs), MergeSort(Entries(ns[half..]), cs), cs)
  {
    hide MergeSort, Merge, Entries, Ascending, AscendingNodes;
    AscendingEntries(ns, cs);
    MergeSortStep(Entries(ns), cs);
    if |ns| > 1 {
      EntriesHalves(ns, (|ns| + 1) / 2);
    }
  }

  lemma OnlyNode(ns: seq<Node>)
    requires Chain(ns) && ns != []
    ensures ns[0].next == null <==> |ns| == 1
  {
    assert ns[0].next == After(ns, 0);
  }

  lemma StillApart(a: seq<Node>, b: seq<Node>, a': seq<Node>, b': seq<Node>)
    requires Apart(a, b)
    requires forall n :: n in a' <==> n in a
    requires forall n :: n in b' <==> n in b
    ensures Apart(a', b')
  {}

  lemma Halves(ns: seq<Node>, half: nat)
    requires half <= |ns|
    ensures forall n :: n in ns <==> n in ns[..half] || n in ns[half..]
  {
    assert ns == ns[..half] + ns[half..];
  }

  /** `sort_list`. The nodes of the result are the same nodes, in the order of the mergesort on sequences; what the
   head's `prev` holds afterwards is stated exactly: it does not lead to the tail. */
  method SortList(list: Node?, caseSensitive: bool, ghost ns: seq<Node>) returns (result: Node?, ghost out: seq<Node>)
    requires list == Head(ns) && Chain(ns)
    modifies ns`next, ns`prev
    ensures result == Head(out) && Chain(out)
    ensures Entries(out) == MergeSort(Entries(ns), caseSensitive)
    ensures forall n :: n in out <==> n in ns
    ensures result != null ==> result.prev == if result == list then old(list.prev) else null
    decreases |ns|, 1
  {
    hide MergeSort, AscendingNodes, AllDifferent, Entries, Merge, Segment, Chain, Apart;
    SortStep(ns, caseSensitive);
    if list == null {
      return list, ns;
    }
    OnlyNode(ns);
    if list.next == null {
      return list, ns;
    }
    var sorted := IsAscending(list, caseSensitive, ns);
    if sorted {
      return list, ns;
    }
    var second := Middle(list, ns);
    ghost var half := (|ns| + 1) / 2;
    ghost var lower, upper := ns[..half], ns[half..];
    Halves(ns, half);
    Split(second, ns, half);
    var first;
    ghost var a, b;
    first, second, a, b := SortHalves(list, second, caseSensitive, lower, upper);
    assert forall n | n in a || n in b :: n in ns;
    assert list == lower[0] && (second != null ==> second == b[0]);
    ApartFrame(a, b);
    result, out := MergeLists(first, second, caseSensitive, a, b);
    assert list in a;
  }

  /** The two recursive calls of `sort_list`. */
  method SortHalves(firstHead: Node, secondHead: Node, caseSensitive: bool, ghost lower: seq<Node>,
      ghost upper: seq<Node>)
    returns (first: Node?, second: Node?, ghost a: seq<Node>, ghost b: seq<Node>)
    requires firstHead == Head(lower) && secondHead == Head(upper)
    requires Chain(lower) && Chain(upper) && Apart(lower, upper)
    modifies lower`next, lower`prev, upper`next, upper`prev
    ensures first == Head(a) && second == Head(b) && Chain(a) && Chain(b) && Apart(a, b)
    ensures Entries(a) == MergeSort(Entries(lower), caseSensitive)
    ensures Entries(b) == MergeSort(Entries(upper), caseSensitive)
    ensures forall n :: n in a <==> n in lower
    ensures forall n :: n in b <==> n in upper
    ensures first != null ==> first.prev == if first == firstHead then old(firstHead.prev) else null
    ensures second != null ==> second.prev == if second == secondHead then old(secondHead.prev) else null
    decreases |lower| + |upper|, 0
  {
    hide MergeSort, Entries, Apart, After, Before, AllDifferent;
    ApartFrame(lower, upper);
    first, a := SortList(firstHead, caseSensitive, lower);
    ApartFrame(lower, upper);
    StillApart(lower, upper, a, upper);
    ApartFrame(a, upper);
    second, b := SortList(secondHead, caseSensitive, upper);
    StillApart(lower, upper, a, b);
  }

  lemma ApartFrame(a: seq<Node>, b: seq<Node>)
    requires Apart(a, b)
    ensures forall n | n in a :: n !in b
    ensures forall i | 0 <= i < |b| :: b[i] !in a
    ensures forall i | 0 <= i < |a| :: a[i] !in b
  {
    assert forall i | 0 <= i < |b| :: b[i] in b;
  }

  /** Node x of the unsorted list stands where its place does. */
  lemma NodeMoved(ns: seq<Node>, out: seq<Node>, x: nat, cs: bool)
    requires AllDifferent(ns) && x < |ns| && Entries(out) == MergeSort(Entries(ns), cs)
    ensures var ts := MergeSort(Tagged(Entries(ns)), cs);
      && |ts| == |ns| == |out| && PlaceIn(out, ns[x]) == PlaceOf(ts, x) < |ns|
      && (out[0] == ns[0] <==> ts[0].value == 0)
  {
    hide MergeSort, PlaceIn;
    var es := Entries(ns);
    var ts := MergeSort(Tagged(es), cs);
    SortedPlaces(es, cs);
    forall i | 0 <= i < |out|
      ensures out[i] == ns[ts[i].value]
    {
      assert Entries(out)[i] == es[ts[i].value];
    }
    var p := PlaceOf(ts, x);
    assert out[p] == ns[x];
    assert AllDifferent(out);
    PlaceIs(out, p);
  }

  /** `sort_object`. It leaves the first node's `prev` as it is, or null where another node gets in front. */
  method SortObject(parent: Parent, caseSensitive: bool)
    requires parent.Anchored()
    modifies parent, parent.nodes`next, parent.nodes`prev
    ensures parent.Anchored() && Entries(parent.nodes) == MergeSort(Entries(old(parent.nodes)), caseSensitive)
    ensures parent.TailOf() == SortTail(Entries(old(parent.nodes)), old(parent.TailOf()), caseSensitive)
    ensures |parent.nodes| == |old(parent.nodes)| && forall n :: n in parent.nodes <==> n in old(parent.nodes)
  {
    hide MergeSort, Chain;
    ghost var ns, end := parent.nodes, if parent.child == null then null else parent.child.prev;
    ChainDifferent(ns);
    SameLength(ns, caseSensitive);
    parent.child, parent.nodes := SortList(parent.child, caseSensitive, ns);
    SortedTail(ns, parent.nodes, end, caseSensitive);
    ghost var es := Entries(ns);
  }

  lemma ChainDifferent(ns: seq<Node>)
    requires Chain(ns)
    ensures AllDifferent(ns)
  {}

  /** The tail of a list whose first node leads to that node. */
  ghost function Leading(ns: seq<Node>, end: Node?): Tail {
    if ns == [] then Last else if end == null then Lost else TailAt(PlaceIn(ns, end), |ns|)
  }

  lemma SortedTail(ns: seq<Node>, out: seq<Node>, end: Node?, cs: bool)
    requires AllDifferent(ns) && |out| == |ns| && Entries(out) == MergeSort(Entries(ns), cs) &&
      (ns != [] ==> end == null || end in ns)
    ensures ns != [] ==>
      Leading(out, if out[0] == ns[0] then end else null) == SortTail(Entries(ns), Leading(ns, end), cs)
    ensures ns == [] ==> SortTail(Entries(ns), Last, cs) == Last
    ensures ns != [] ==> out != [] && (end != null ==> end in out)
  {
    hide MergeSort, PlaceOf;
    if ns != [] {
      NodeMoved(ns, out, 0, cs);
      if end != null {
        var x := PlaceIn(ns, end);
        NodeMoved(ns, out, x, cs);
        if |ns| == 1 {
          MergeSortStep(Tagged(Entries(ns)), cs);
        }
      } else if |ns| == 1 {
        MergeSortStep(Tagged(Entries(ns)), cs);
      }
    }
  }

  lemma SameLength(ns: seq<Node>, cs: bool)
    ensures |MergeSort(Entries(ns), cs)| == |ns|
  {
    SortPermutes(Entries(ns), cs);
    PermutationLength(MergeSort(Entries(ns), cs), Entries(ns));
  }

  /** What becomes of an item that is appended to an object after sorting it, as when a patch adds a member to an object
   that an earlier `test` has compared. In a list that was well formed it arrives behind all others exactly if sorting
   has moved neither the first nor the last node. */
  method SortThenAppend(parent: Parent, item: Node, caseSensitive: bool) returns (ghost sorted: seq<Node>)
    requires parent.Anchored() && item !in parent.nodes && item.next == null
    modifies parent, item`next, item`prev, parent.nodes`next, parent.nodes`prev
    ensures |sorted| == |old(parent.nodes)| && Entries(sorted) == MergeSort(Entries(old(parent.nodes)), caseSensitive)
    ensures parent.nodes ==
      Tails.Append(sorted, SortTail(Entries(old(parent.nodes)), old(parent.TailOf()), caseSensitive), item)
    ensures old(parent.Valid()) ==> (parent.nodes == sorted + [item] <==>
      sorted == [] || (sorted[0] == old(parent.nodes)[0] && sorted[|sorted|-1] == old(parent.nodes)[|sorted|-1]))
  {
    hide MergeSort, Chain;
    ghost var was := parent.nodes;
    ChainDifferent(was);
    parent.ValidTail();
    SortObject(parent, caseSensitive);
    sorted := parent.nodes;
    assert forall i | 0 <= i < |parent.nodes| :: parent.nodes[i] in was;
    parent.AddItemToArray(item);
    if was != [] {
      NodeMoved(was, sorted, |was| - 1, caseSensitive);
      SortKeepsTail(Entries(was), caseSensitive);
      LastMoved(was, sorted, caseSensitive);
      AppendWhole(sorted, SortTail(Entries(was), Last, caseSensitive), item);
    }
  }

  lemma LastMoved(ns: seq<Node>, out: seq<Node>, cs: bool)
    requires AllDifferent(ns) && ns != [] && |out| == |ns| && Entries(out) == MergeSort(Entries(ns), cs)
    ensures var ts := MergeSort(Tagged(Entries(ns)), cs);
      |ts| == |ns| && (out[|ns|-1] == ns[|ns|-1] <==> ts[|ns|-1].value == |ns| - 1)
  {
    hide MergeSort;
    SortedPlaces(Entries(ns), cs);
    var ts := MergeSort(Tagged(Entries(ns)), cs);
    assert Entries(out)[|ns|-1] == Entries(ns)[ts[|ns|-1].value];
  }

  lemma AppendWhole<V>(s: seq<V>, tail: Tail, x: V)
    requires s != [] && TailFits(tail, |s|)
    ensures Tails.Append(s, tail, x) == s + [x] <==> tail.Last?
  {}
}
