/** The order in which `sort_list` leaves a sibling list, as a function on sequences. */
module Sorting {
  import opened Strings

  /** A list element: its name and whatever hangs below it. */
  datatype Entry<+V> = Entry(key: Text, value: V)

  function Compare<V>(x: Entry<V>, y: Entry<V>, caseSensitive: bool): int {
    CompareStrings(x.key, y.key, caseSensitive)
  }

  /** On equal keys the element of the second list goes first. */
  function Merge<V>(a: seq<Entry<V>>, b: seq<Entry<V>>, caseSensitive: bool): seq<Entry<V>>
    decreases |a| + |b|
  {
    if a == [] then b
    else if b == [] then a
    else if Compare(a[0], b[0], caseSensitive) < 0 then [a[0]] + Merge(a[1..], b, caseSensitive)
    else [b[0]] + Merge(a, b[1..], caseSensitive)
  }

  /** Each element strictly before its successor: the test for a list that is left alone. */
  predicate Ascending<V>(s: seq<Entry<V>>, caseSensitive: bool) {
    forall i | 0 <= i < |s| - 1 :: Compare(s[i], s[i+1], caseSensitive) < 0
  }

  function MergeSort<V>(s: seq<Entry<V>>, caseSensitive: bool): seq<Entry<V>>
    decreases |s|
  {
    if |s| <= 1 || Ascending(s, caseSensitive) then s
    else
      var half := (|s| + 1) / 2;
      Merge(MergeSort(s[..half], caseSensitive), MergeSort(s[half..], caseSensitive), caseSensitive)
  }

  lemma MergeSortStep<V>(s: seq<Entry<V>>, caseSensitive: bool)
    ensures |s| <= 1 || Ascending(s, caseSensitive) ==> MergeSort(s, caseSensitive) == s
    ensures |s| > 1 && !Ascending(s, caseSensitive) ==>
      var half := (|s| + 1) / 2;
      MergeSort(s, caseSensitive) ==
        Merge(MergeSort(s[..half], caseSensitive), MergeSort(s[half..], caseSensitive), caseSensitive)
  {}

  ghost predicate Sorted<V>(s: seq<Entry<V>>, caseSensitive: bool) {
    forall i, j | 0 <= i < j < |s| :: Compare(s[i], s[j], caseSensitive) <= 0
  }

  lemma CompareTransitive<V>(x: Entry<V>, y: Entry<V>, z: Entry<V>, caseSensitive: bool)
    requires Compare(x, y, caseSensitive) <= 0 && Compare(y, z, caseSensitive) <= 0
    ensures Compare(x, z, caseSensitive) <= 0
  {
    if caseSensitive {
      StrcmpTransitive(x.key, y.key, z.key);
    } else {
      StrcmpTransitive(Fold(x.key), Fold(y.key), Fold(z.key));
    }
  }

  lemma CompareTotal<V>(x: Entry<V>, y: Entry<V>, caseSensitive: bool)
    ensures Compare(x, y, caseSensitive) == -Compare(y, x, caseSensitive)
    ensures Compare(x, y, true) == 0 <==> x.key == y.key
  {
    StrcmpZero(x.key, y.key);
    StrcmpAntisymmetric(x.key, y.key);
    StrcmpAntisymmetric(Fold(x.key), Fold(y.key));
  }

  lemma {:induction false} MergePermutes<V>(a: seq<Entry<V>>, b: seq<Entry<V>>, caseSensitive: bool)
    ensures multiset(Merge(a, b, caseSensitive)) == multiset(a) + multiset(b)
    decreases |a| + |b|
  {
    hide CompareStrings;
    if a != [] && b != [] {
      if Compare(a[0], b[0], caseSensitive) < 0 {
        MergePermutes(a[1..], b, caseSensitive);
        assert a == [a[0]] + a[1..];
      } else {
        MergePermutes(a, b[1..], caseSensitive);
        assert b == [b[0]] + b[1..];
      }
    }
  }

  lemma TailSorted<V>(s: seq<Entry<V>>, caseSensitive: bool)
    requires Sorted(s, caseSensitive) && s != []
    ensures Sorted(s[1..], caseSensitive)
  {
    hide Compare;
    forall i, j | 0 <= i < j < |s[1..]|
      ensures Compare(s[1..][i], s[1..][j], caseSensitive) <= 0
    {
      assert s[1..][i] == s[i+1] && s[1..][j] == s[j+1];
    }
  }

  lemma HeadSorted<V>(head: Entry<V>, rest: seq<Entry<V>>, caseSensitive: bool)
    requires Sorted(rest, caseSensitive)
    requires forall j | 0 <= j < |rest| :: Compare(head, rest[j], caseSensitive) <= 0
    ensures Sorted([head] + rest, caseSensitive)
  {
    hide Compare;
  }

  lemma {:induction false} MergeSorted<V>(a: seq<Entry<V>>, b: seq<Entry<V>>, caseSensitive: bool)
    requires Sorted(a, caseSensitive) && Sorted(b, caseSensitive)
    ensures Sorted(Merge(a, b, caseSensitive), caseSensitive)
    decreases |a| + |b|
  {
    hide Sorted;
    if a != [] && b != [] {
      CompareTotal(a[0], b[0], caseSensitive);
      var first := Compare(a[0], b[0], caseSensitive) < 0;
      var head := if first then a[0] else b[0];
      var a', b' := if first then a[1..] else a, if first then b else b[1..];
      TailSorted(a, caseSensitive);
      TailSorted(b, caseSensitive);
      MergeSorted(a', b', caseSensitive);
      MergePermutes(a', b', caseSensitive);
      var rest := Merge(a', b', caseSensitive);
      assert Merge(a, b, caseSensitive) == [head] + rest;
      forall j | 0 <= j < |rest|
        ensures Compare(head, rest[j], caseSensitive) <= 0
      {
        assert rest[j] in multiset(rest);
        HeadIsLeast(a, b, rest[j], caseSensitive);
      }
      HeadSorted(head, rest, caseSensitive);
    }
  }

  lemma HeadIsLeast<V>(a: seq<Entry<V>>, b: seq<Entry<V>>, x: Entry<V>, caseSensitive: bool)
    requires a != [] && b != [] && Sorted(a, caseSensitive) && Sorted(b, caseSensitive)
    requires x in a || x in b
    ensures Compare(if Compare(a[0], b[0], caseSensitive) < 0 then a[0] else b[0], x, caseSensitive) <= 0
  {
    CompareTotal(a[0], b[0], caseSensitive);
    CompareTotal(x, x, caseSensitive);
    if x in a {
      var i :| 0 <= i < |a| && a[i] == x;
      assert Compare(a[0], x, caseSensitive) <= 0;
      if Compare(a[0], b[0], caseSensitive) >= 0 {
        CompareTransitive(b[0], a[0], x, caseSensitive);
      }
    } else {
      var i :| 0 <= i < |b| && b[i] == x;
      assert Compare(b[0], x, caseSensitive) <= 0;
      if Compare(a[0], b[0], caseSensitive) < 0 {
        CompareTransitive(a[0], b[0], x, caseSensitive);
      }
    }
  }

  lemma {:induction false} AscendingIsSorted<V>(s: seq<Entry<V>>, i: nat, j: nat, caseSensitive: bool)
    requires Ascending(s, caseSensitive) && i < j < |s|
    ensures Compare(s[i], s[j], caseSensitive) <= 0
    decreases j
  {
    if i < j - 1 {
      AscendingIsSorted(s, i, j - 1, caseSensitive);
      CompareTransitive(s[i], s[j-1], s[j], caseSensitive);
    }
  }

  /** The sorted list holds exactly the elements of the list it started from. */
  lemma {:induction false} SortPermutes<V>(s: seq<Entry<V>>, caseSensitive: bool)
    ensures multiset(MergeSort(s, caseSensitive)) == multiset(s)
    decreases |s|
  {
    if |s| > 1 && !Ascending(s, caseSensitive) {
      var half := (|s| + 1) / 2;
      var a, b := s[..half], s[half..];
      assert multiset(s) == multiset(a) + multiset(b) by { assert s == a + b; }
      SortPermutes(a, caseSensitive);
      SortPermutes(b, caseSensitive);
      MergePermutes(MergeSort(a, caseSensitive), MergeSort(b, caseSensitive), caseSensitive);
    }
  }

  lemma PermutationLength<V>(s: seq<Entry<V>>, t: seq<Entry<V>>)
    requires multiset(s) == multiset(t)
    ensures |s| == |t|
  {
    assert |multiset(s)| == |s| && |multiset(t)| == |t|;
  }

  /** ... in ascending order of name. */
  lemma {:induction false} SortOrders<V>(s: seq<Entry<V>>, caseSensitive: bool)
    ensures Sorted(MergeSort(s, caseSensitive), caseSensitive)
    decreases |s|
  {
    if |s| > 1 {
      if Ascending(s, caseSensitive) {
        forall i, j | 0 <= i < j < |s|
          ensures Compare(s[i], s[j], caseSensitive) <= 0
        {
          AscendingIsSorted(s, i, j, caseSensitive);
        }
      } else {
        var half := (|s| + 1) / 2;
        SortOrders(s[..half], caseSensitive);
        SortOrders(s[half..], caseSensitive);
        MergeSorted(MergeSort(s[..half], caseSensitive), MergeSort(s[half..], caseSensitive), caseSensitive);
      }
    }
  }

  /** No two elements have the same name. */
  ghost predicate Distinct<V>(s: seq<Entry<V>>) {
    forall i, j | 0 <= i < j < |s| :: s[i].key != s[j].key
  }

  lemma SameElements<V>(s: seq<Entry<V>>, t: seq<Entry<V>>, x: Entry<V>)
    requires multiset(s) == multiset(t)
    ensures x in s <==> x in t
  {
    assert x in s <==> x in multiset(s);
    assert x in t <==> x in multiset(t);
  }

  lemma {:induction false} OnceOnly<V>(s: seq<Entry<V>>, x: Entry<V>)
    requires Distinct(s)
    ensures multiset(s)[x] <= 1
  {
    if s != [] {
      OnceOnly(s[1..], x);
      assert s == [s[0]] + s[1..];
    }
  }

  lemma Twice<V>(t: seq<Entry<V>>, i: nat, j: nat)
    requires i < j < |t| && t[i] == t[j]
    ensures multiset(t)[t[i]] >= 2
  {
    assert multiset(t) == multiset(t[..j]) + multiset(t[j..]) by { assert t == t[..j] + t[j..]; }
    assert t[i] in t[..j] && t[i] in t[j..];
  }

  lemma DistinctPermutation<V>(s: seq<Entry<V>>, t: seq<Entry<V>>)
    requires multiset(s) == multiset(t) && Distinct(s)
    ensures Distinct(t)
  {
    forall i, j | 0 <= i < j < |t|
      ensures t[i].key != t[j].key
    {
      SameElements(s, t, t[i]);
      SameElements(s, t, t[j]);
      if t[i] == t[j] {
        OnceOnly(s, t[i]);
        Twice(t, i, j);
        assert false;
      }
    }
  }
}
