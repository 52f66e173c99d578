/** What the two equalities decide, and what `compare_json` leaves behind. */
module CompareProofs {
  import opened Strings
  import opened Sorting
  import opened Tails
  import opened Json
  import opened Compare

  /** A tree without the order of its members: repeated names and all, and nothing of where appending arrives. */
  datatype Bag = Atom(j: Json) | Row(items: seq<Bag>) | Heap(members: multiset<Entry<Bag>>)

  ghost function Contents(j: Json): Bag {
    match j
    case Array(items) => Row(seq(|items|, i requires 0 <= i < |items| => Contents(items[i])))
    case Object(members, _) => Heap(Gather(members))
    case _ => Atom(j)
  }

  ghost function Gather(ms: seq<Member>): multiset<Entry<Bag>> {
    if ms == [] then multiset{} else multiset{Entry(ms[0].key, Contents(ms[0].value))} + Gather(ms[1..])
  }

  /** y is x with members reordered: the same contents, so the same meaning and the same nesting. */
  ghost predicate Reordered(x: Json, y: Json) {
    && Contents(y) == Contents(x)
    && (Unique(x) ==> Unique(y) && Denote(y) == Denote(x))
    && Depth(y) <= Depth(x)
  }

  ghost predicate ReorderedItems(s: seq<Json>, t: seq<Json>) {
    |t| == |s| && forall i | 0 <= i < |s| :: Reordered(s[i], t[i])
  }

  /** Members one by one, in the same order. */
  ghost predicate ReorderedMembers(s: seq<Member>, t: seq<Member>) {
    |t| == |s| && forall i | 0 <= i < |s| :: t[i].key == s[i].key && Reordered(s[i].value, t[i].value)
  }

  lemma {:induction false} GatherConcat(a: seq<Member>, b: seq<Member>)
    ensures Gather(a + b) == Gather(a) + Gather(b)
  {
    if a == [] {
      assert a + b == b;
    } else {
      assert (a + b)[1..] == a[1..] + b;
      GatherConcat(a[1..], b);
    }
  }

  lemma TakenOut(t: seq<Member>, i: nat, rest: seq<Member>)
    requires i < |t| && multiset([t[i]] + rest) == multiset(t)
    ensures multiset(rest) == multiset(t[..i] + t[i+1..])
  {
    assert t == t[..i] + [t[i]] + t[i+1..];
    assert multiset(t) == multiset(t[..i]) + multiset{t[i]} + multiset(t[i+1..]);
    assert multiset([t[i]] + rest) == multiset{t[i]} + multiset(rest);
    assert multiset(rest) == multiset(t) - multiset{t[i]};
  }

  lemma GatherAround(t: seq<Member>, i: nat)
    requires i < |t|
    ensures Gather(t) == multiset{Entry(t[i].key, Contents(t[i].value))} + Gather(t[..i] + t[i+1..])
  {
    assert t == t[..i] + ([t[i]] + t[i+1..]) && ([t[i]] + t[i+1..])[1..] == t[i+1..];
    GatherConcat(t[..i], [t[i]] + t[i+1..]);
    GatherConcat(t[..i], t[i+1..]);
  }

  lemma {:induction false} GatherPermuted(s: seq<Member>, t: seq<Member>)
    requires multiset(s) == multiset(t)
    ensures Gather(s) == Gather(t)
  {
    PermutationLength(s, t);
    if s != [] {
      SameElements(s, t, s[0]);
      var i :| 0 <= i < |t| && t[i] == s[0];
      assert s == [t[i]] + s[1..];
      TakenOut(t, i, s[1..]);
      GatherPermuted(s[1..], t[..i] + t[i+1..]);
      GatherAround(t, i);
    }
  }

  lemma {:induction false} GatherSame(s: seq<Member>, t: seq<Member>)
    requires |s| == |t| && forall i | 0 <= i < |s| ::
        s[i].key == t[i].key && Contents(s[i].value) == Contents(t[i].value)
    ensures Gather(s) == Gather(t)
  {
    if s != [] {
      assert forall i | 0 <= i < |s| - 1 :: s[1..][i] == s[i+1] && t[1..][i] == t[i+1];
      GatherSame(s[1..], t[1..]);
    }
  }

  lemma ReorderedArray(s: seq<Json>, t: seq<Json>)
    requires ReorderedItems(s, t)
    ensures Reordered(Array(s), Array(t))
  {
    hide Contents, Denote;
    DeepestItemIsLeast(t, DeepestItem(s));
    ArrayContents(s, t);
    if Unique(Array(s)) {
      ArrayMeaning(s, t);
    }
  }

  lemma ArrayContents(s: seq<Json>, t: seq<Json>)
    requires |s| == |t| && forall i | 0 <= i < |s| :: Contents(t[i]) == Contents(s[i])
    ensures Contents(Array(t)) == Contents(Array(s))
  {
    assert Contents(Array(t)).items == Contents(Array(s)).items;
  }

  lemma ArrayMeaning(s: seq<Json>, t: seq<Json>)
    requires |s| == |t| && forall i | 0 <= i < |s| :: Denote(t[i]) == Denote(s[i])
    ensures Denote(Array(t)) == Denote(Array(s))
  {
    assert Denote(Array(t)).items == Denote(Array(s)).items;
  }

  lemma ReorderedObject(ms: seq<Member>, s: seq<Member>, t: seq<Member>)
    requires multiset(s) == multiset(ms) && ReorderedMembers(s, t)
    ensures forall u, v :: Reordered(Object(ms, u), Object(t, v))
  {
    hide Contents, Denote, ToMap, Gather;
    forall i | 0 <= i < |t|
      ensures s[i] in ms
    {
      SameElements(ms, s, s[i]);
    }
    DeepestMemberIsLeast(t, DeepestMember(ms));
    GatherPermuted(s, ms);
    GatherSame(s, t);
    if UniqueMembers(ms) {
      PermutedMap(ms, s);
      SameMap(s, t);
    }
    forall u, v
      ensures Reordered(Object(ms, u), Object(t, v))
    {
      ObjectMeaning(ms, t, u, v);
    }
  }

  lemma ObjectMeaning(ms: seq<Member>, t: seq<Member>, u: Tail, v: Tail)
    ensures Gather(t) == Gather(ms) ==> Contents(Object(t, v)) == Contents(Object(ms, u))
    ensures ToMap(t) == ToMap(ms) ==> Denote(Object(t, v)) == Denote(Object(ms, u))
  {}

  lemma ItemsRefl(s: seq<Json>)
    ensures ReorderedItems(s, s)
  {}

  lemma MembersRefl(s: seq<Member>)
    ensures ReorderedMembers(s, s)
  {}

  /** `compare_json` only reorders the trees it is given, whatever it answers. */
  lemma {:induction false} CompareKeeps(a: Json, b: Json, caseSensitive: bool)
    ensures var r := CompareJson(a, b, caseSensitive); Reordered(a, r.a) && Reordered(b, r.b)
    decreases Depth(a), 1, 0
  {
    match (a, b)
    case (Array(s), Array(t)) =>
      hide Reordered, CompareItems;
      CompareItemsKeeps(s, t, caseSensitive);
      var r := CompareItems(s, t, caseSensitive);
      ReorderedArray(s, r.a);
      ReorderedArray(t, r.b);
    case (Object(s, _), Object(t, _)) =>
      hide Reordered, CompareMembers, MergeSort, SortTail, ReorderedMembers;
      SortPermutes(s, caseSensitive);
      SortPermutes(t, caseSensitive);
      var x, y := MergeSort(s, caseSensitive), MergeSort(t, caseSensitive);
      forall i | 0 <= i < |x|
        ensures Depth(x[i].value) < Depth(a) && x[i].value < a
      {
        SameElements(s, x, x[i]);
      }
      CompareMembersKeeps(a, x, y, caseSensitive);
      var r := CompareMembers(a, x, y, caseSensitive);
      ReorderedObject(s, x, r.a);
      ReorderedObject(t, y, r.b);
    case _ =>
  }

  lemma {:induction false} CompareItemsKeeps(a: seq<Json>, b: seq<Json>, caseSensitive: bool)
    ensures var r := CompareItems(a, b, caseSensitive); ReorderedItems(a, r.a) && ReorderedItems(b, r.b)
    decreases 1 + DeepestItem(a), 0, |a|
  {
    hide CompareJson, Reordered;
    ItemsRefl(a);
    ItemsRefl(b);
    if a != [] && b != [] {
      CompareKeeps(a[0], b[0], caseSensitive);
      DeepestItemIsLeast(a[1..], DeepestItem(a));
      CompareItemsKeeps(a[1..], b[1..], caseSensitive);
    }
  }

  lemma {:induction false} CompareMembersKeeps(whole: Json, a: seq<Member>, b: seq<Member>, caseSensitive: bool)
    requires forall i | 0 <= i < |a| :: a[i].value < whole && Depth(a[i].value) < Depth(whole)
    ensures var r := CompareMembers(whole, a, b, caseSensitive); ReorderedMembers(a, r.a) && ReorderedMembers(b, r.b)
    decreases Depth(whole), 0, |a|
  {
    hide CompareJson, CompareStrings, Reordered;
    MembersRefl(a);
    MembersRefl(b);
    if a != [] && b != [] && CompareStrings(a[0].key, b[0].key, caseSensitive) == 0 {
      CompareKeeps(a[0].value, b[0].value, caseSensitive);
      CompareMembersKeeps(whole, a[1..], b[1..], caseSensitive);
    }
  }

  // ----- what they decide

  /** No two of the names are the same in the chosen mode. */
  ghost predicate ToldApart(names: set<Text>, caseSensitive: bool) {
    caseSensitive || forall a, b | a in names && b in names && a != b :: Fold(a) != Fold(b)
  }

  lemma SameApart(k: Text, l: Text, names: set<Text>, caseSensitive: bool)
    requires ToldApart(names, caseSensitive) && k in names && l in names
    ensures CompareStrings(k, l, caseSensitive) == 0 <==> k == l
  {
    StrcmpZero(k, l);
    StrcmpZero(Fold(k), Fold(l));
  }

  /** What sorts before a sorted list is not in it. */
  lemma HeadOutside(k: Text, b: seq<Member>, caseSensitive: bool)
    requires b != [] && Sorted(b, caseSensitive) && UniqueMembers(b)
    requires CompareStrings(k, b[0].key, caseSensitive) < 0
    ensures k !in ToMap(b)
  {
    hide UniqueMembers, Denote, ToMap;
    DistinctNames(b);
    MapOf(b);
    forall i | 0 <= i < |b|
      ensures b[i].key != k
    {
      CompareTotal(Entry(k, 0), Entry(b[0].key, 0), caseSensitive);
      StrcmpZero(k, k);
      StrcmpZero(Fold(k), Fold(k));
      if i > 0 {
        assert Sorting.Compare(b[0], b[i], caseSensitive) <= 0;
      }
    }
  }

  /** Where the names are told apart, the mode of a lookup makes no difference. */
  lemma FindKeyModes(ms: seq<Member>, name: Text, names: set<Text>, caseSensitive: bool)
    requires ToldApart(names, caseSensitive) && name in names && forall i | 0 <= i < |ms| :: ms[i].key in names
    ensures FindKey(ms, name, caseSensitive) == FindKey(ms, name, true)
  {
    var i, j := FindKey(ms, name, caseSensitive), FindKey(ms, name, true);
    if i < j {
      SameApart(name, ms[i].key, names, caseSensitive);
      StrcmpZero(name, ms[i].key);
    } else if j < i {
      SameApart(name, ms[j].key, names, caseSensitive);
      StrcmpZero(name, ms[j].key);
    }
  }

  lemma HeadsDiffer(a: seq<Member>, b: seq<Member>)
    requires a != [] && b != [] && CompareStrings(a[0].key, b[0].key, true) != 0
    requires Sorted(a, true) && UniqueMembers(a) && Sorted(b, true) && UniqueMembers(b)
    ensures ToMap(a) != ToMap(b)
  {
    hide UniqueMembers, Denote, ToMap;
    CompareTotal(a[0], b[0], true);
    DistinctNames(a);
    DistinctNames(b);
    MapOf(a);
    MapOf(b);
    if CompareStrings(a[0].key, b[0].key, true) < 0 {
      HeadOutside(a[0].key, b, true);
    } else {
      HeadOutside(b[0].key, a, true);
    }
  }

  lemma HeadMap(ms: seq<Member>)
    requires ms != [] && UniqueMembers(ms)
    ensures ms[0].key !in ToMap(ms[1..])
    ensures ToMap(ms) - {ms[0].key} == ToMap(ms[1..])
    ensures UniqueMembers(ms[1..])
  {
    assert forall i | 0 <= i < |ms| - 1 :: ms[1..][i] == ms[i+1];
    MapOf(ms[1..]);
  }

  lemma InsertInjective(m: map<Text, Value>, n: map<Text, Value>, k: Text, x: Value, y: Value)
    requires k !in m && k !in n
    ensures m[k := x] == n[k := y] <==> x == y && m == n
  {
    if m[k := x] == n[k := y] {
      assert m[k := x][k] == n[k := y][k];
      assert m == m[k := x] - {k} && n == n[k := y] - {k};
    }
  }

  lemma EqualMaps(a: seq<Member>, b: seq<Member>)
    requires a != [] && b != [] && UniqueMembers(a) && UniqueMembers(b) && a[0].key == b[0].key
    ensures ToMap(a) == ToMap(b) <==> Denote(a[0].value) == Denote(b[0].value) && ToMap(a[1..]) == ToMap(b[1..])
  {
    HeadMap(a);
    HeadMap(b);
    InsertInjective(ToMap(a[1..]), ToMap(b[1..]), a[0].key, Denote(a[0].value), Denote(b[0].value));
  }

  /** With regard to case `compare_json` decides equality of the data the two trees hold. */
  lemma {:induction false} CompareJsonDecides(a: Json, b: Json)
    requires Unique(a) && Unique(b)
    ensures CompareJson(a, b, true).same <==> Denote(a) == Denote(b)
    decreases Depth(a), 1, 0
  {
    match (a, b)
    case (Array(s), Array(t)) =>
      assert forall i | 0 <= i < |s| :: Denote(a).items[i] == Denote(s[i]);
      assert forall i | 0 <= i < |t| :: Denote(b).items[i] == Denote(t[i]);
      CompareItemsDecides(s, t);
    case (Object(s, _), Object(t, _)) =>
      ObjectsDecide(a, s, t);
    case _ =>
  }

  lemma {:induction false} ObjectsDecide(whole: Json, s: seq<Member>, t: seq<Member>)
    requires whole.Object? && whole.members == s
    requires UniqueMembers(s) && UniqueMembers(t)
    ensures var x, y := MergeSort(s, true), MergeSort(t, true);
      && (forall m | m in x :: m.value < whole)
      && (CompareMembers(whole, x, y, true).same <==> ToMap(s) == ToMap(t))
    decreases Depth(whole), 0, |s| + 1
  {
    hide Unique, Denote, CompareMembers, ToMap, MergeSort;
    SortedMap(s, true);
    SortedMap(t, true);
    SortOrders(s, true);
    SortOrders(t, true);
    SortPermutes(s, true);
    var x, y := MergeSort(s, true), MergeSort(t, true);
    PermutationLength(s, x);
    forall i | 0 <= i < |x|
      ensures x[i].value < whole && Depth(x[i].value) < Depth(whole)
    {
      SameElements(s, x, x[i]);
    }
    CompareMembersDecides(whole, x, y);
  }

  lemma {:induction false} CompareItemsDecides(a: seq<Json>, b: seq<Json>)
    requires forall i | 0 <= i < |a| :: Unique(a[i])
    requires forall i | 0 <= i < |b| :: Unique(b[i])
    ensures CompareItems(a, b, true).same <==> Denote(Array(a)) == Denote(Array(b))
    decreases 1 + DeepestItem(a), 0, |a|
  {
    if a != [] && b != [] {
      hide CompareJson, Unique, Denote;
      CompareJsonDecides(a[0], b[0]);
      DeepestItemIsLeast(a[1..], DeepestItem(a));
      CompareItemsDecides(a[1..], b[1..]);
      EqualArrays(a, b);
    } else {
      assert |Denote(Array(a)).items| == |a| && |Denote(Array(b)).items| == |b|;
    }
  }

  lemma EqualArrays(a: seq<Json>, b: seq<Json>)
    requires a != [] && b != []
    ensures Denote(Array(a)) == Denote(Array(b)) <==>
      Denote(a[0]) == Denote(b[0]) && Denote(Array(a[1..])) == Denote(Array(b[1..]))
  {
    var x, y := Denote(Array(a)).items, Denote(Array(b)).items;
    assert Denote(Array(a[1..])).items == x[1..] && Denote(Array(b[1..])).items == y[1..];
    assert x == [x[0]] + x[1..] && y == [y[0]] + y[1..];
  }

  /** Two member lists as the comparison walks them. */
  ghost predicate Walked(a: seq<Member>, b: seq<Member>) {
    && Sorted(a, true) && UniqueMembers(a) && Sorted(b, true) && UniqueMembers(b)
  }

  lemma WalkedTails(a: seq<Member>, b: seq<Member>)
    requires Walked(a, b) && a != [] && b != [] && a[0].key == b[0].key
    ensures Walked(a[1..], b[1..])
    ensures Unique(a[0].value) && Unique(b[0].value)
  {
    hide Denote, Unique;
    HeadMap(a);
    HeadMap(b);
    TailSorted(a, true);
    TailSorted(b, true);
    var s, t := ToMap(a), ToMap(b);
    assert s[a[0].key] == Denote(a[0].value) && t[a[0].key] == Denote(b[0].value);
    assert forall k | k in s - {a[0].key} :: (s - {a[0].key})[k] == s[k];
  }

  lemma {:induction false} CompareMembersDecides(whole: Json, a: seq<Member>, b: seq<Member>)
    requires forall i | 0 <= i < |a| :: a[i].value < whole && Depth(a[i].value) < Depth(whole)
    requires Walked(a, b)
    ensures CompareMembers(whole, a, b, true).same <==> ToMap(a) == ToMap(b)
    decreases Depth(whole), 0, |a|
  {
    if a == [] || b == [] {
      MapOf(a);
      MapOf(b);
    } else {
      hide Sorted, UniqueMembers, Denote;
      MapHeads(a, b);
      StrcmpZero(a[0].key, b[0].key);
      if CompareStrings(a[0].key, b[0].key, true) != 0 {
        HeadsDiffer(a, b);
      } else {
        WalkedTails(a, b);
        CompareJsonDecides(a[0].value, b[0].value);
        CompareMembersDecides(whole, a[1..], b[1..]);
        EqualMaps(a, b);
      }
    }
  }

  lemma MapHeads(a: seq<Member>, b: seq<Member>)
    requires a != [] && b != []
    ensures a[0].key in ToMap(a) && b[0].key in ToMap(b)
  {}

  /** The lookup of a member's name in a list finds an equal value, and neither is invalid. */
  ghost predicate FindsSound(m: Member, others: seq<Member>) {
    var k := FindKey(others, m.key, true);
    && k < |others| && Denote(m.value) == Denote(others[k].value)
    && NoInvalid(m.value) && NoInvalid(others[k].value)
  }

  ghost predicate NoInvalidMembers(ms: seq<Member>) {
    forall i | 0 <= i < |ms| :: NoInvalid(ms[i].value)
  }

  ghost predicate Within(m: map<Text, Value>, n: map<Text, Value>) {
    forall k | k in m :: k in n && n[k] == m[k]
  }

  lemma FindsMap(m: Member, others: seq<Member>)
    requires UniqueMembers(others)
    ensures FindsSound(m, others) ==> m.key in ToMap(others) && ToMap(others)[m.key] == Denote(m.value)
    ensures m.key in ToMap(others) && ToMap(others)[m.key] == Denote(m.value) && NoInvalid(m.value) &&
            NoInvalidMembers(others) ==>
      FindsSound(m, others)
  {
    hide NoInvalid, Denote, ToMap, Unique;
    DistinctNames(others);
    MapOf(others);
    LookupMap(others, m.key);
  }

  ghost predicate AllFindSound(s: seq<Member>, t: seq<Member>) {
    forall i | 0 <= i < |s| :: FindsSound(s[i], t)
  }

  lemma AllFindMap(s: seq<Member>, t: seq<Member>)
    requires UniqueMembers(s) && UniqueMembers(t)
    ensures AllFindSound(s, t) ==> Within(ToMap(s), ToMap(t)) && NoInvalidMembers(s)
    ensures Within(ToMap(s), ToMap(t)) && NoInvalidMembers(s) && NoInvalidMembers(t) ==>
      AllFindSound(s, t)
  {
    hide NoInvalid, Denote, ToMap, Unique, FindsSound;
    DistinctNames(s);
    MapOf(s);
    forall i | 0 <= i < |s|
      ensures FindsSound(s[i], t) ==>
        s[i].key in ToMap(t) && ToMap(t)[s[i].key] == ToMap(s)[s[i].key] && NoInvalid(s[i].value)
      ensures s[i].key in ToMap(t) && ToMap(t)[s[i].key] == ToMap(s)[s[i].key] && NoInvalid(s[i].value) &&
              NoInvalidMembers(t) ==>
        FindsSound(s[i], t)
    {
      FindsMap(s[i], t);
      SoundValue(s[i], t);
    }
    if AllFindSound(s, t) {
      forall k | k in ToMap(s)
        ensures k in ToMap(t) && ToMap(t)[k] == ToMap(s)[k]
      {
        var i :| 0 <= i < |s| && s[i].key == k;
        assert FindsSound(s[i], t);
      }
    }
  }

  lemma SoundValue(m: Member, others: seq<Member>)
    ensures FindsSound(m, others) ==> NoInvalid(m.value)
  {}

  lemma BothWithin(s: map<Text, Value>, t: map<Text, Value>)
    ensures Within(s, t) && Within(t, s) <==> s == t
  {
    if Within(s, t) && Within(t, s) {
      assert s.Keys == t.Keys;
    }
  }

  /** `cJSON_Compare` decides the same equality, except that it never accepts an invalid node. */
  lemma {:induction false} CJsonCompareDecides(a: Json, b: Json)
    requires Unique(a) && Unique(b)
    ensures CJsonCompare(a, b, true) <==> Denote(a) == Denote(b) && NoInvalid(a) && NoInvalid(b)
    decreases Depth(a) + Depth(b)
  {
    if a.Array? && b.Array? {
      assert forall i | 0 <= i < |a.items| :: Denote(a).items[i] == Denote(a.items[i]);
      assert forall i | 0 <= i < |b.items| :: Denote(b).items[i] == Denote(b.items[i]);
      ArraysDecide(a.items, b.items);
    } else if a.Object? && b.Object? {
      ObjectsCompare(a, b);
    } else {
      ScalarsDecide(a, b);
    }
  }

  lemma ScalarsDecide(a: Json, b: Json)
    requires !(a.Array? && b.Array?) && !(a.Object? && b.Object?)
    ensures CJsonCompare(a, b, true) <==> Denote(a) == Denote(b) && NoInvalid(a) && NoInvalid(b)
  {}

  lemma {:induction false} ObjectsCompare(a: Json, b: Json)
    requires a.Object? && b.Object?
    requires UniqueMembers(a.members) && UniqueMembers(b.members)
    ensures CJsonCompare(a, b, true) <==>
      ToMap(a.members) == ToMap(b.members) && NoInvalidMembers(a.members) && NoInvalidMembers(b.members)
    decreases DeepestMember(a.members) + 1 + DeepestMember(b.members), 2
  {
    hide UniqueMembers, AllFindSound, NoInvalidMembers, AllMatch, ToMap;
    var s, t := a.members, b.members;
    AllMatchDecide(s, t);
    AllMatchDecide(t, s);
    AllFindMap(s, t);
    AllFindMap(t, s);
    BothWithin(ToMap(s), ToMap(t));
  }

  lemma {:induction false} ArraysDecide(s: seq<Json>, t: seq<Json>)
    requires forall i | 0 <= i < |s| :: Unique(s[i])
    requires forall i | 0 <= i < |t| :: Unique(t[i])
    ensures CJsonCompare(Array(s), Array(t), true) <==>
      Denote(Array(s)) == Denote(Array(t)) && NoInvalid(Array(s)) && NoInvalid(Array(t))
    decreases DeepestItem(s) + 1 + DeepestItem(t), 1
  {
    var x, y := Denote(Array(s)).items, Denote(Array(t)).items;
    forall i | 0 <= i < |s| && i < |t|
      ensures CJsonCompare(s[i], t[i], true) <==> x[i] == y[i] && NoInvalid(s[i]) && NoInvalid(t[i])
    {
      CJsonCompareDecides(s[i], t[i]);
    }
  }

  lemma {:induction false} AllMatchDecide(s: seq<Member>, t: seq<Member>)
    requires UniqueMembers(s) && UniqueMembers(t)
    ensures AllMatch(s, t, true) <==> AllFindSound(s, t)
    decreases DeepestMember(s) + 1 + DeepestMember(t), 1
  {
    hide Unique;
    forall i | 0 <= i < |s|
      ensures Matches(s[i], t, true) <==> FindsSound(s[i], t)
    {
      MatchesDecides(s, i, t);
    }
  }

  lemma {:induction false} MatchesDecides(s: seq<Member>, i: nat, others: seq<Member>)
    requires i < |s| && UniqueMembers(s) && UniqueMembers(others)
    ensures Matches(s[i], others, true) <==> FindsSound(s[i], others)
    decreases Depth(s[i].value) + 1 + DeepestMember(others), 0
  {
    hide ToMap, Denote, NoInvalid;
    var k := FindKey(others, s[i].key, true);
    if k < |others| {
      CJsonCompareDecides(s[i].value, others[k].value);
    }
  }
}
