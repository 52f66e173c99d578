/**
 Where appending to a sibling list arrives. `add_item_to_array` finds the end of a list in
 the `prev` of the first node, and `sort_list` does not put that right again.
 */
module Tails {
  import opened Strings
  import opened Sorting

  /** Where the first node's `prev` leads: to the last node, nowhere, to a node in front of the last, or out of the
   list. */
  datatype Tail = Last | Lost | Middle(at: nat) | Dangling

  /** The tail of a list of n nodes whose first node leads to node `at`. */
  function TailAt(at: nat, n: nat): Tail {
    if at + 1 >= n then Last else Middle(at)
  }

  /** A tail that a list of n nodes can have. */
  predicate TailFits(tail: Tail, n: nat) {
    match tail
    case Last => true
    case Middle(at) => at + 1 < n
    case _ => n > 0
  }

  /** Each name with the place it is at. */
  function Tagged<V>(ms: seq<Entry<V>>): (ts: seq<Entry<int>>)
    ensures |ts| == |ms|
  {
    seq(|ms|, i requires 0 <= i < |ms| => Entry(ms[i].key, i))
  }

  /** Where the element from place x has got to. */
  function PlaceOf(ts: seq<Entry<int>>, x: int): (i: nat)
    ensures i <= |ts|
    ensures i < |ts| ==> ts[i].value == x
    ensures forall j | 0 <= j < i :: ts[j].value != x
  {
    if ts == [] || ts[0].value == x then 0 else 1 + PlaceOf(ts[1..], x)
  }

  /** The tail that `sort_list` leaves: the first node keeps its `prev`, unless another one gets in front of it. */
  function SortTail<V>(ms: seq<Entry<V>>, tail: Tail, caseSensitive: bool): Tail {
    var sorted := MergeSort(Tagged(ms), caseSensitive);
    if |ms| <= 1 || sorted == [] then tail
    else if sorted[0].value != 0 then Lost
    else
      match tail
      case Last => TailAt(PlaceOf(sorted, |ms| - 1), |ms|)
      case Middle(at) => TailAt(PlaceOf(sorted, at), |ms|)
      case _ => tail
  }

  /** The tail after node i of n has been unlinked. */
  function RemoveTail(n: nat, tail: Tail, i: nat): Tail
    requires i < n
  {
    if n == 1 then Last
    else if 0 < i == n - 1 then Last
    else
      match tail
      case Middle(at) => if at == i then Dangling else if at > i then TailAt(at - 1, n - 1) else tail
      case _ => tail
  }

  /** The list after `add_item_to_array`. */
  function Append<V>(s: seq<V>, tail: Tail, x: V): seq<V> {
    if s == [] then [x]
    else
      match tail
      case Last => s + [x]
      case Middle(at) => if at < |s| then s[..at+1] + [x] else s + [x]
      case _ => s
  }

  function AppendTail<V>(s: seq<V>, tail: Tail): Tail {
    if s == [] || tail.Middle? then Last else tail
  }

  // ----- the places are those the sorted list has

  /** The elements of `s` are those of `base` at the places that `ts` names. */
  ghost predicate Points<V>(s: seq<Entry<V>>, ts: seq<Entry<int>>, base: seq<Entry<V>>) {
    |ts| == |s| && forall i | 0 <= i < |s| ::
      0 <= ts[i].value < |base| && base[ts[i].value] == s[i] && ts[i].key == s[i].key
  }

  lemma PointsTail<V>(s: seq<Entry<V>>, ts: seq<Entry<int>>, base: seq<Entry<V>>)
    requires s != [] && Points(s, ts, base)
    ensures Points(s[1..], ts[1..], base) && ts[0].key == s[0].key
  {}

  lemma PointsCons<V>(s: seq<Entry<V>>, ts: seq<Entry<int>>, base: seq<Entry<V>>, x: Entry<V>, t: Entry<int>)
    requires Points(s, ts, base) && 0 <= t.value < |base| && base[t.value] == x && t.key == x.key
    ensures Points([x] + s, [t] + ts, base)
  {}

  lemma {:induction false} MergePoints<V>(a: seq<Entry<V>>, ta: seq<Entry<int>>, b: seq<Entry<V>>, tb: seq<Entry<int>>,
      base: seq<Entry<V>>, caseSensitive: bool)
    requires Points(a, ta, base) && Points(b, tb, base)
    ensures Points(Merge(a, b, caseSensitive), Merge(ta, tb, caseSensitive), base)
    decreases |a| + |b|
  {
    hide Points, CompareStrings;
    if a == [] || b == [] {
      assert |ta| == |a| && |tb| == |b| by { PointsLength(a, ta, base); PointsLength(b, tb, base); }
    } else {
      PointsLength(a, ta, base);
      PointsLength(b, tb, base);
      PointsTail(a, ta, base);
      PointsTail(b, tb, base);
      PointsHead(a, ta, base);
      PointsHead(b, tb, base);
      if Compare(a[0], b[0], caseSensitive) < 0 {
        MergePoints(a[1..], ta[1..], b, tb, base, caseSensitive);
        PointsCons(Merge(a[1..], b, caseSensitive), Merge(ta[1..], tb, caseSensitive), base, a[0], ta[0]);
      } else {
        MergePoints(a, ta, b[1..], tb[1..], base, caseSensitive);
        PointsCons(Merge(a, b[1..], caseSensitive), Merge(ta, tb[1..], caseSensitive), base, b[0], tb[0]);
      }
    }
  }

  lemma PointsLength<V>(s: seq<Entry<V>>, ts: seq<Entry<int>>, base: seq<Entry<V>>)
    requires Points(s, ts, base)
    ensures |ts| == |s|
  {}

  lemma PointsHead<V>(s: seq<Entry<V>>, ts: seq<Entry<int>>, base: seq<Entry<V>>)
    requires s != [] && Points(s, ts, base)
    ensures ts != [] && 0 <= ts[0].value < |base| && base[ts[0].value] == s[0] && ts[0].key == s[0].key
  {}

  lemma PointsHalves<V>(s: seq<Entry<V>>, ts: seq<Entry<int>>, base: seq<Entry<V>>, half: nat)
    requires Points(s, ts, base) && half <= |s|
    ensures |ts| == |s| && Points(s[..half], ts[..half], base) && Points(s[half..], ts[half..], base)
  {}

  lemma {:induction false} SortPoints<V>(s: seq<Entry<V>>, ts: seq<Entry<int>>, base: seq<Entry<V>>,
      caseSensitive: bool)
    requires Points(s, ts, base)
    ensures Points(MergeSort(s, caseSensitive), MergeSort(ts, caseSensitive), base)
    decreases |s|
  {
    hide MergeSort, Merge, Points, Ascending;
    SameAscent(s, ts, base, caseSensitive);
    PointsLength(s, ts, base);
    MergeSortStep(s, caseSensitive);
    MergeSortStep(ts, caseSensitive);
    if |s| > 1 && !Ascending(s, caseSensitive) {
      var half := (|s| + 1) / 2;
      PointsHalves(s, ts, base, half);
      SortPoints(s[..half], ts[..half], base, caseSensitive);
      SortPoints(s[half..], ts[half..], base, caseSensitive);
      MergePoints(MergeSort(s[..half], caseSensitive), MergeSort(ts[..half], caseSensitive),
                  MergeSort(s[half..], caseSensitive), MergeSort(ts[half..], caseSensitive), base, caseSensitive);
    }
  }

  lemma SameAscent<V>(s: seq<Entry<V>>, ts: seq<Entry<int>>, base: seq<Entry<V>>, caseSensitive: bool)
    requires Points(s, ts, base)
    ensures Ascending(s, caseSensitive) <==> Ascending(ts, caseSensitive)
  {
    forall i | 0 <= i < |s| - 1
      ensures Compare(s[i], s[i+1], caseSensitive) == Compare(ts[i], ts[i+1], caseSensitive)
    {}
  }

  /** Every place of the sorted list names where its element was, and no two name the same. */
  lemma SortedPlaces<V>(s: seq<Entry<V>>, caseSensitive: bool)
    ensures var ts := MergeSort(Tagged(s), caseSensitive);
      && |ts| == |s| == |MergeSort(s, caseSensitive)|
      && (forall i | 0 <= i < |s| :: 0 <= ts[i].value < |s| && MergeSort(s, caseSensitive)[i] == s[ts[i].value])
      && (forall i, j | 0 <= i < j < |s| :: ts[i].value != ts[j].value)
      && (forall x | 0 <= x < |s| :: PlaceOf(ts, x) < |s|)
  {
    hide MergeSort;
    var tagged := Tagged(s);
    var ts := MergeSort(tagged, caseSensitive);
    assert Points(s, tagged, s);
    SortPoints(s, tagged, s, caseSensitive);
    SortPermutes(tagged, caseSensitive);
    PermutationLength(ts, tagged);
    OncePlaces(tagged, ts);
    forall x | 0 <= x < |s|
      ensures PlaceOf(ts, x) < |s|
    {
      SameElements(tagged, ts, tagged[x]);
      var i :| 0 <= i < |ts| && ts[i] == tagged[x];
    }
  }

  lemma OncePlaces(tagged: seq<Entry<int>>, ts: seq<Entry<int>>)
    requires multiset(tagged) == multiset(ts)
    requires forall i | 0 <= i < |tagged| :: tagged[i].value == i
    ensures forall i, j | 0 <= i < j < |ts| :: ts[i].value != ts[j].value
  {
    forall i, j | 0 <= i < j < |ts|
      ensures ts[i].value != ts[j].value
    {
      SameElements(tagged, ts, ts[i]);
      SameElements(tagged, ts, ts[j]);
      if ts[i].value == ts[j].value {
        assert ts[i] == ts[j];
        Twice(ts, i, j);
        Once(tagged, ts[i]);
      }
    }
  }

  lemma {:induction false} Once(tagged: seq<Entry<int>>, x: Entry<int>)
    requires forall i, j | 0 <= i < j < |tagged| :: tagged[i].value != tagged[j].value
    ensures multiset(tagged)[x] <= 1
  {
    if tagged != [] {
      Once(tagged[1..], x);
      assert tagged == [tagged[0]] + tagged[1..];
    }
  }

  /** After sorting, appending works as it should exactly if neither the first nor the last element has moved. */
  lemma SortKeepsTail<V>(s: seq<Entry<V>>, caseSensitive: bool)
    requires s != []
    ensures var ts := MergeSort(Tagged(s), caseSensitive);
      |ts| == |s| && (SortTail(s, Last, caseSensitive) == Last <==> ts[0].value == 0 && ts[|s|-1].value == |s| - 1)
  {
    hide MergeSort;
    SortedPlaces(s, caseSensitive);
    var ts := MergeSort(Tagged(s), caseSensitive);
    var last := PlaceOf(ts, |s| - 1);
    if |s| > 1 && last + 1 < |s| {
      assert ts[last].value == |s| - 1 && ts[|s|-1].value != ts[last].value;
    }
  }

  lemma TailsFit<V>(s: seq<Entry<V>>, tail: Tail, i: nat, caseSensitive: bool)
    requires TailFits(tail, |s|)
    ensures TailFits(SortTail(s, tail, caseSensitive), |s|)
    ensures i < |s| ==> TailFits(RemoveTail(|s|, tail, i), |s| - 1)
  {}
}
