/**
 Trees with their names folded. What the library does without regard to case is what it
 does with regard to case on the folded trees.
 */
module Folding {
  import opened Strings
  import opened Sorting
  import opened Tails
  import opened Json
  import opened Compare
  import opened CompareProofs

  /** Every name in lower case, at every depth. */
  function FoldNames(j: Json): (r: Json)
    decreases j
  {
    match j
    case Array(items) => Array(FoldItems(items))
    case Object(members, tail) => Object(FoldMembers(members), tail)
    case _ => j
  }

  function FoldItems(items: seq<Json>): (r: seq<Json>)
    ensures |r| == |items| && forall i | 0 <= i < |items| :: r[i] == FoldNames(items[i])
    decreases items
  {
    seq(|items|, i requires 0 <= i < |items| => FoldNames(items[i]))
  }

  function FoldMembers(ms: seq<Member>): (r: seq<Member>)
    ensures |r| == |ms| && forall i | 0 <= i < |ms| :: r[i] == Entry(Fold(ms[i].key), FoldNames(ms[i].value))
    decreases ms
  {
    seq(|ms|, i requires 0 <= i < |ms| => Entry(Fold(ms[i].key), FoldNames(ms[i].value)))
  }

  /** The tree as a mode sees it. */
  function Seen(j: Json, caseSensitive: bool): Json {
    if caseSensitive then j else FoldNames(j)
  }

  lemma {:induction false} UniqueInAny(j: Json)
    requires Unique(FoldNames(j))
    ensures Unique(j)
  {
    match j
    case Array(items) =>
      forall i | 0 <= i < |items|
        ensures Unique(items[i])
      {
        assert Unique(FoldItems(items)[i]);
        UniqueInAny(items[i]);
      }
    case Object(members, _) =>
      var ms := FoldMembers(members);
      assert UniqueMembers(ms);
      forall i | 0 <= i < |members|
        ensures Unique(members[i].value)
      {
        assert Unique(ms[i].value);
        UniqueInAny(members[i].value);
      }
      forall i, j | 0 <= i < j < |members|
        ensures members[i].key != members[j].key
      {
        assert ms[i].key != ms[j].key;
      }
    case _ =>
  }

  // ----- sorting

  /** t is s with its names folded and its values replaced by images. */
  ghost predicate Image<V, W>(s: seq<Entry<V>>, t: seq<Entry<W>>, g: V -> W) {
    |t| == |s| && forall i | 0 <= i < |s| :: t[i] == Entry(Fold(s[i].key), g(s[i].value))
  }

  lemma ImageLength<V, W>(s: seq<Entry<V>>, t: seq<Entry<W>>, g: V -> W)
    requires Image(s, t, g)
    ensures |t| == |s|
  {}

  lemma ImageParts<V, W>(s: seq<Entry<V>>, t: seq<Entry<W>>, g: V -> W, n: nat)
    requires Image(s, t, g) && n <= |s|
    ensures Image(s[..n], t[..n], g) && Image(s[n..], t[n..], g)
  {}

  lemma {:induction false} MergeImage<V, W>(a: seq<Entry<V>>, b: seq<Entry<V>>, x: seq<Entry<W>>, y: seq<Entry<W>>,
      g: V -> W)
    requires Image(a, x, g) && Image(b, y, g)
    ensures Image(Merge(a, b, false), Merge(x, y, true), g)
    decreases |a| + |b|
  {
    if a != [] && b != [] {
      assert Sorting.Compare(a[0], b[0], false) == Sorting.Compare(x[0], y[0], true);
      MergeImage(a[1..], b, x[1..], y, g);
      MergeImage(a, b[1..], x, y[1..], g);
    }
  }

  /** Sorting without regard to case is sorting the folded names. */
  lemma {:induction false} SortImage<V, W>(s: seq<Entry<V>>, t: seq<Entry<W>>, g: V -> W)
    requires Image(s, t, g)
    ensures Image(MergeSort(s, false), MergeSort(t, true), g)
    decreases |s|
  {
    hide Image, MergeSort, Merge, Ascending;
    MergeSortStep(s, false);
    MergeSortStep(t, true);
    ImageLength(s, t, g);
    AscendingImage(s, t, g);
    if |s| > 1 && !Ascending(s, false) {
      var half := (|s| + 1) / 2;
      ImageParts(s, t, g, half);
      SortImage(s[..half], t[..half], g);
      SortImage(s[half..], t[half..], g);
      MergeImage(MergeSort(s[..half], false), MergeSort(s[half..], false), MergeSort(t[..half], true),
        MergeSort(t[half..], true), g);
    }
  }

  lemma AscendingImage<V, W>(s: seq<Entry<V>>, t: seq<Entry<W>>, g: V -> W)
    requires Image(s, t, g)
    ensures Ascending(s, false) <==> Ascending(t, true)
  {
    forall i | 0 <= i < |s| - 1
      ensures Sorting.Compare(s[i], s[i+1], false) == Sorting.Compare(t[i], t[i+1], true)
    {}
  }

  lemma SortMembers(ms: seq<Member>)
    ensures MergeSort(FoldMembers(ms), true) == FoldMembers(MergeSort(ms, false))
  {
    var t := FoldMembers(ms);
    assert Image(ms, t, FoldNames);
    SortImage(ms, t, FoldNames);
    var x, y := MergeSort(ms, false), MergeSort(t, true);
    assert forall i | 0 <= i < |x| :: y[i] == FoldMembers(x)[i];
  }

  lemma SortTails(ms: seq<Member>, tail: Tail)
    ensures SortTail(FoldMembers(ms), tail, true) == SortTail(ms, tail, false)
  {
    hide MergeSort, PlaceOf;
    PlacesSorted(ms);
    var x, y := MergeSort(Tagged(ms), false), MergeSort(Tagged(FoldMembers(ms)), true);
    if tail.Middle? {
      SamePlace(x, y, tail.at);
    }
    SamePlace(x, y, |ms| - 1);
  }

  lemma PlacesSorted(ms: seq<Member>)
    ensures var x, y := MergeSort(Tagged(ms), false), MergeSort(Tagged(FoldMembers(ms)), true);
      |x| == |y| && forall i | 0 <= i < |x| :: y[i].value == x[i].value
  {
    hide MergeSort;
    var s, t := Tagged(ms), Tagged(FoldMembers(ms));
    var same := (x: int) => x;
    assert Image(s, t, same);
    SortImage(s, t, same);
  }

  lemma {:induction false} SamePlace(x: seq<Entry<int>>, y: seq<Entry<int>>, v: int)
    requires |x| == |y| && forall i | 0 <= i < |x| :: y[i].value == x[i].value
    ensures PlaceOf(x, v) == PlaceOf(y, v)
  {
    if x != [] && x[0].value != v {
      SamePlace(x[1..], y[1..], v);
    }
  }

  // ----- comparing

  lemma FoldTails(ms: seq<Member>)
    requires ms != []
    ensures FoldMembers(ms)[0] == Entry(Fold(ms[0].key), FoldNames(ms[0].value))
    ensures FoldMembers(ms)[1..] == FoldMembers(ms[1..])
  {}

  lemma FoldItemsTail(items: seq<Json>)
    requires items != []
    ensures FoldItems(items)[0] == FoldNames(items[0]) && FoldItems(items)[1..] == FoldItems(items[1..])
  {}

  /** `compare_json` without regard to case does what it does with regard to case on the folded trees. */
  lemma {:induction false} CompareJsonFolds(a: Json, b: Json)
    ensures var r := CompareJson(a, b, false);
      CompareJson(FoldNames(a), FoldNames(b), true) == Compared(r.same, FoldNames(r.a), FoldNames(r.b))
    decreases Depth(a), 1, 0
  {
    hide MergeSort, SortTail;
    match (a, b)
    case (Array(s), Array(t)) =>
      CompareItemsFolds(s, t);
    case (Object(s, tail), Object(t, other)) =>
      SortMembers(s);
      SortMembers(t);
      SortTails(s, tail);
      SortTails(t, other);
      SortedInside(a);
      SortedInside(FoldNames(a));
      CompareMembersFolds(a, FoldNames(a), MergeSort(s, false), MergeSort(t, false));
    case _ =>
  }

  lemma SortedInside(j: Json)
    requires j.Object?
    ensures forall caseSensitive, m | m in MergeSort(j.members, caseSensitive) ::
      m.value < j && Depth(m.value) < Depth(j)
  {
    forall caseSensitive, m | m in MergeSort(j.members, caseSensitive)
      ensures m.value < j && Depth(m.value) < Depth(j)
    {
      SortPermutes(j.members, caseSensitive);
      SameElements(j.members, MergeSort(j.members, caseSensitive), m);
    }
  }

  lemma {:induction false} CompareItemsFolds(s: seq<Json>, t: seq<Json>)
    ensures var r := CompareItems(s, t, false);
      CompareItems(FoldItems(s), FoldItems(t), true) == Compared(r.same, FoldItems(r.a), FoldItems(r.b))
    decreases 1 + DeepestItem(s), 0, |s|
  {
    if s != [] && t != [] {
      hide CompareJson;
      CompareJsonFolds(s[0], t[0]);
      FoldItemsTail(s);
      FoldItemsTail(t);
      DeepestItemIsLeast(s[1..], DeepestItem(s));
      CompareItemsFolds(s[1..], t[1..]);
      var head, rest := CompareJson(s[0], t[0], false), CompareItems(s[1..], t[1..], false);
      ConsItems(head.a, s[1..]);
      ConsItems(head.b, t[1..]);
      ConsItems(head.a, rest.a);
      ConsItems(head.b, rest.b);
    }
  }

  lemma ConsItems(j: Json, items: seq<Json>)
    ensures FoldItems([j] + items) == [FoldNames(j)] + FoldItems(items)
  {}

  lemma ConsMembers(m: Member, ms: seq<Member>)
    ensures FoldMembers([m] + ms) == [Entry(Fold(m.key), FoldNames(m.value))] + FoldMembers(ms)
  {}

  lemma {:induction false} CompareMembersFolds(whole: Json, folded: Json, a: seq<Member>, b: seq<Member>)
    requires forall m | m in a :: m.value < whole && Depth(m.value) < Depth(whole)
    requires forall m | m in FoldMembers(a) :: m.value < folded
    ensures var r := CompareMembers(whole, a, b, false);
      CompareMembers(folded, FoldMembers(a), FoldMembers(b), true) ==
        Compared(r.same, FoldMembers(r.a), FoldMembers(r.b))
    decreases Depth(whole), 0, |a|
  {
    if a != [] && b != [] {
      hide CompareJson, Fold, Strcmp;
      CompareJsonFolds(a[0].value, b[0].value);
      FoldTails(a);
      FoldTails(b);
      SameTurn(a[0].key, b[0].key);
      CompareMembersFolds(whole, folded, a[1..], b[1..]);
      var head := CompareJson(a[0].value, b[0].value, false);
      var rest := CompareMembers(whole, a[1..], b[1..], false);
      var x, y := a[0].(value := head.a), b[0].(value := head.b);
      ConsMembers(x, a[1..]);
      ConsMembers(y, b[1..]);
      ConsMembers(x, rest.a);
      ConsMembers(y, rest.b);
    }
  }

  lemma SameTurn(k: Text, l: Text)
    ensures CompareStrings(k, l, false) == CompareStrings(Fold(k), Fold(l), true)
  {}

  /** A lookup without regard to case finds what an exact one finds among the folded names. */
  lemma {:induction false} FindFolds(ms: seq<Member>, k: Text)
    ensures FindKey(FoldMembers(ms), Fold(k), true) == FindKey(ms, k, false)
  {
    if ms != [] {
      FoldTails(ms);
      FindFolds(ms[1..], k);
    }
  }

  /** The same for `cJSON_Compare`. */
  lemma {:induction false} CJsonCompareFolds(a: Json, b: Json)
    ensures CJsonCompare(FoldNames(a), FoldNames(b), true) == CJsonCompare(a, b, false)
    decreases Depth(a) + Depth(b), 0
  {
    match (a, b)
    case (Array(s), Array(t)) =>
      if |s| == |t| {
        forall i | 0 <= i < |s|
          ensures CJsonCompare(FoldItems(s)[i], FoldItems(t)[i], true) == CJsonCompare(s[i], t[i], false)
        {
          CJsonCompareFolds(s[i], t[i]);
        }
      }
    case (Object(s, _), Object(t, _)) =>
      AllMatchFolds(s, t);
      AllMatchFolds(t, s);
    case _ =>
  }

  lemma {:induction false} AllMatchFolds(ms: seq<Member>, others: seq<Member>)
    ensures AllMatch(FoldMembers(ms), FoldMembers(others), true) == AllMatch(ms, others, false)
    decreases DeepestMember(ms) + 1 + DeepestMember(others), 2
  {
    forall i | 0 <= i < |ms|
      ensures Matches(FoldMembers(ms)[i], FoldMembers(others), true) == Matches(ms[i], others, false)
    {
      var k := FindKey(others, ms[i].key, false);
      FindFolds(others, ms[i].key);
      if k < |others| {
        CJsonCompareFolds(ms[i].value, others[k].value);
      }
    }
  }

  lemma {:induction false} FoldInvalid(j: Json)
    ensures NoInvalid(FoldNames(j)) <==> NoInvalid(j)
  {
    match j
    case Array(items) =>
      forall i | 0 <= i < |items|
        ensures NoInvalid(FoldItems(items)[i]) <==> NoInvalid(items[i])
      {
        FoldInvalid(items[i]);
      }
    case Object(members, _) =>
      forall i | 0 <= i < |members|
        ensures NoInvalid(FoldMembers(members)[i].value) <==> NoInvalid(members[i].value)
      {
        FoldInvalid(members[i].value);
      }
    case _ =>
  }

  // ----- data with folded names

  ghost function FoldedNames(names: set<Text>): set<Text> {
    set k | k in names :: Fold(k)
  }

  /** A name that is the given one when folded. */
  ghost function Unfolded(names: set<Text>, l: Text): (k: Text)
    requires l in FoldedNames(names)
    ensures k in names && Fold(k) == l
  {
    var k :| k in names && Fold(k) == l; k
  }

  ghost function FoldValue(v: Value): Value
    decreases v
  {
    match v
    case VArray(s) => VArray(seq(|s|, i requires 0 <= i < |s| => FoldValue(s[i])))
    case VObject(m) => VObject(map l | l in FoldedNames(m.Keys) :: FoldValue(m[Unfolded(m.Keys, l)]))
    case _ => v
  }

  /** The data as a mode sees it. */
  ghost function SeenAs(v: Value, caseSensitive: bool): Value {
    if caseSensitive then v else FoldValue(v)
  }

  /** In each object, the mode tells the names apart. */
  ghost predicate ApartIn(v: Value, caseSensitive: bool)
    decreases v
  {
    match v
    case VArray(s) => forall i | 0 <= i < |s| :: ApartIn(s[i], caseSensitive)
    case VObject(m) => ToldApart(m.Keys, caseSensitive) && forall k | k in m :: ApartIn(m[k], caseSensitive)
    case _ => true
  }

  /** No object has two members whose names are the same in that mode. */
  ghost predicate UniqueIn(j: Json, caseSensitive: bool) {
    Unique(j) && (caseSensitive || ApartIn(Denote(j), false))
  }

  lemma FoldedMember(m: map<Text, Value>, k: Text)
    requires k in m && ToldApart(m.Keys, false)
    ensures Fold(k) in FoldedNames(m.Keys) && Unfolded(m.Keys, Fold(k)) == k
    ensures FoldValue(VObject(m)).members[Fold(k)] == FoldValue(m[k])
  {
    assert Fold(k) in FoldedNames(m.Keys);
  }

  /** Folding commutes with meaning. */
  lemma {:induction false} FoldMeans(j: Json)
    requires Unique(j)
    ensures Unique(FoldNames(j)) <==> ApartIn(Denote(j), false)
    ensures Unique(FoldNames(j)) ==> Denote(FoldNames(j)) == FoldValue(Denote(j))
  {
    match j
    case Array(items) =>
      forall i | 0 <= i < |items|
        ensures Unique(FoldItems(items)[i]) <==> ApartIn(Denote(j).items[i], false)
        ensures Unique(FoldItems(items)[i]) ==> Denote(FoldItems(items)[i]) == FoldValue(Denote(j).items[i])
      {
        FoldMeans(items[i]);
      }
      if Unique(FoldNames(j)) {
        assert forall i | 0 <= i < |items| :: Unique(FoldItems(items)[i]);
        assert Denote(FoldNames(j)).items == FoldValue(Denote(j)).items;
      }
    case Object(members, _) =>
      forall i | 0 <= i < |members|
        ensures Unique(FoldNames(members[i].value)) <==> ApartIn(Denote(members[i].value), false)
        ensures Unique(FoldNames(members[i].value)) ==>
          Denote(FoldNames(members[i].value)) == FoldValue(Denote(members[i].value))
      {
        FoldMeans(members[i].value);
      }
      FoldObject(members);
      ObjectMeans(j);
      ObjectMeans(FoldNames(j));
    case _ =>
  }

  lemma FoldObject(ms: seq<Member>)
    requires UniqueMembers(ms)
    requires forall i | 0 <= i < |ms| ::
      && (Unique(FoldNames(ms[i].value)) <==> ApartIn(Denote(ms[i].value), false))
      && (Unique(FoldNames(ms[i].value)) ==> Denote(FoldNames(ms[i].value)) == FoldValue(Denote(ms[i].value)))
    ensures UniqueMembers(FoldMembers(ms)) <==> ApartIn(VObject(ToMap(ms)), false)
    ensures UniqueMembers(FoldMembers(ms)) ==> VObject(ToMap(FoldMembers(ms))) == FoldValue(VObject(ToMap(ms)))
  {
    hide ToMap, Denote, Unique, FoldNames, FoldValue;
    MapOf(ms);
    var fs, m := FoldMembers(ms), ToMap(ms);
    assert (forall k | k in m :: ApartIn(m[k], false)) <==> forall i | 0 <= i < |ms| :: Unique(fs[i].value);
    assert ToldApart(m.Keys, false) <==> Distinct(fs) by { FoldDistinct(ms); }
    if UniqueMembers(fs) {
      FoldedMap(ms);
    }
  }

  lemma FoldDistinct(ms: seq<Member>)
    requires Distinct(ms)
    ensures ToldApart(ToMap(ms).Keys, false) <==> Distinct(FoldMembers(ms))
  {
    hide ToMap, Denote;
    MapOf(ms);
    var fs := FoldMembers(ms);
    if Distinct(fs) {
      forall a, b | a in ToMap(ms) && b in ToMap(ms) && a != b
        ensures Fold(a) != Fold(b)
      {
        var i :| 0 <= i < |ms| && ms[i].key == a;
        var j :| 0 <= j < |ms| && ms[j].key == b;
        assert if i < j then fs[i].key != fs[j].key else fs[j].key != fs[i].key;
      }
    }
  }

  lemma FoldedMap(ms: seq<Member>)
    requires UniqueMembers(ms) && Distinct(FoldMembers(ms)) && ToldApart(ToMap(ms).Keys, false)
    requires forall i | 0 <= i < |ms| :: Denote(FoldNames(ms[i].value)) == FoldValue(Denote(ms[i].value))
    ensures VObject(ToMap(FoldMembers(ms))) == FoldValue(VObject(ToMap(ms)))
  {
    hide ToMap, Denote, Unique, FoldNames;
    MapOf(ms);
    var fs, m := FoldMembers(ms), ToMap(ms);
    var want := FoldValue(VObject(m)).members;
    forall i | 0 <= i < |fs|
      ensures fs[i].key in want && want[fs[i].key] == Denote(fs[i].value)
    {
      FoldedMember(m, ms[i].key);
    }
    forall l | l in want
      ensures exists i :: 0 <= i < |fs| && fs[i].key == l
    {
      var k := Unfolded(m.Keys, l);
      var i :| 0 <= i < |ms| && ms[i].key == k;
      assert fs[i].key == l;
    }
    MapIs(fs, want);
  }

  /** What a mode sees, on trees and on data. */
  lemma SeenMeans(j: Json, caseSensitive: bool)
    ensures UniqueIn(j, caseSensitive) <==> Unique(Seen(j, caseSensitive))
    ensures UniqueIn(j, caseSensitive) ==> Denote(Seen(j, caseSensitive)) == SeenAs(Denote(j), caseSensitive)
  {
    hide FoldNames, FoldValue, ApartIn;
    if !caseSensitive {
      if Unique(FoldNames(j)) {
        UniqueInAny(j);
      }
      if Unique(j) {
        FoldMeans(j);
      }
    }
  }

  // ----- what the two equalities decide, in either mode

  /** `compare_json` decides equality of the data, where the mode minds no case with all names folded. */
  lemma CompareDecides(a: Json, b: Json, caseSensitive: bool)
    requires UniqueIn(a, caseSensitive) && UniqueIn(b, caseSensitive)
    ensures CompareJson(a, b, caseSensitive).same <==>
      SeenAs(Denote(a), caseSensitive) == SeenAs(Denote(b), caseSensitive)
  {
    hide CompareJson, UniqueIn, Unique, Denote, FoldNames, SeenAs;
    SeenMeans(a, caseSensitive);
    SeenMeans(b, caseSensitive);
    CompareJsonDecides(Seen(a, caseSensitive), Seen(b, caseSensitive));
    CompareJsonFolds(a, b);
  }

  /** `cJSON_Compare` decides the same for trees without invalid nodes. */
  lemma CJsonDecides(a: Json, b: Json, caseSensitive: bool)
    requires UniqueIn(a, caseSensitive) && UniqueIn(b, caseSensitive)
    ensures CJsonCompare(a, b, caseSensitive) <==>
      SeenAs(Denote(a), caseSensitive) == SeenAs(Denote(b), caseSensitive) && NoInvalid(a) && NoInvalid(b)
  {
    hide CJsonCompare, UniqueIn, Unique, Denote, FoldNames, NoInvalid, SeenAs;
    SeenMeans(a, caseSensitive);
    SeenMeans(b, caseSensitive);
    CJsonCompareDecides(Seen(a, caseSensitive), Seen(b, caseSensitive));
    CJsonCompareFolds(a, b);
    FoldInvalid(a);
    FoldInvalid(b);
  }

  /** The two equalities agree. */
  lemma EqualitiesAgree(a: Json, b: Json, caseSensitive: bool)
    requires UniqueIn(a, caseSensitive) && UniqueIn(b, caseSensitive) && NoInvalid(a) && NoInvalid(b)
    ensures CJsonCompare(a, b, caseSensitive) == CompareJson(a, b, caseSensitive).same
  {
    CJsonDecides(a, b, caseSensitive);
    CompareDecides(a, b, caseSensitive);
  }
}
