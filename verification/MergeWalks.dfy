/** The walk along two sorted lists of members: when it takes the names that both have, and what it makes of each. */
module MergeWalks {
  import opened Strings
  import opened Sorting
  import opened Json
  import opened Compare
  import opened CompareProofs
  import opened Merge

  // ----- the values under one name

  /** The values that a member list has under a name, in their order. */
  function Under(ms: seq<Member>, k: Text): seq<Json> {
    if ms == [] then [] else (if ms[0].key == k then [ms[0].value] else []) + Under(ms[1..], k)
  }

  lemma NothingUnder(k: Text)
    ensures Under([], k) == []
  {}

  lemma UnderHead(ms: seq<Member>, k: Text)
    requires ms != []
    ensures Under(ms, k) == (if ms[0].key == k then [ms[0].value] else []) + Under(ms[1..], k)
  {}

  lemma {:induction false} UnderConcat(a: seq<Member>, b: seq<Member>, k: Text)
    ensures Under(a + b, k) == Under(a, k) + Under(b, k)
  {
    hide Under;
    if a == [] {
      assert a + b == b;
      NothingUnder(k);
    } else {
      assert (a + b)[1..] == a[1..] + b;
      UnderHead(a, k);
      UnderHead(a + b, k);
      UnderConcat(a[1..], b, k);
    }
  }

  lemma UnderOne(m: Member, k: Text)
    ensures Under([m], k) == if m.key == k then [m.value] else []
  {
    assert [m][1..] == [];
  }

  lemma UnderAround(ms: seq<Member>, i: nat, k: Text)
    requires i < |ms|
    ensures Under(ms, k) == Under(ms[..i], k) + (if ms[i].key == k then [ms[i].value] else []) + Under(ms[i+1..], k)
  {
    assert ms == ms[..i] + ([ms[i]] + ms[i+1..]);
    UnderConcat(ms[..i], [ms[i]] + ms[i+1..], k);
    UnderConcat([ms[i]], ms[i+1..], k);
    UnderOne(ms[i], k);
  }

  /** The first of them is the meaning of the name. */
  lemma {:induction false} UnderMeans(ms: seq<Member>, k: Text)
    ensures k in ToMap(ms) <==> Under(ms, k) != []
    ensures k in ToMap(ms) ==> ToMap(ms)[k] == Denote(Under(ms, k)[0])
  {
    if ms != [] {
      UnderMeans(ms[1..], k);
    }
  }

  lemma {:induction false} UnderFrom(ms: seq<Member>, k: Text, i: nat) returns (at: nat)
    requires i < |Under(ms, k)|
    ensures at < |ms| && ms[at].key == k && ms[at].value == Under(ms, k)[i]
  {
    if ms[0].key != k {
      var r := UnderFrom(ms[1..], k, i);
      at := r + 1;
    } else if i == 0 {
      at := 0;
    } else {
      var r := UnderFrom(ms[1..], k, i - 1);
      at := r + 1;
    }
  }

  lemma UnderListed(ms: seq<Member>, i: nat)
    requires i < |ms|
    ensures ms[i].value in Under(ms, ms[i].key)
  {
    UnderAround(ms, i, ms[i].key);
  }

  ghost predicate AtMostOne(ms: seq<Member>, k: Text) {
    |Under(ms, k)| <= 1
  }

  /** Names are distinct if and only if no name has more than one value. */
  lemma DistinctUnder(ms: seq<Member>)
    ensures Distinct(ms) <==> forall k :: AtMostOne(ms, k)
  {
    if Distinct(ms) {
      forall k
        ensures AtMostOne(ms, k)
      {
        OneUnder(ms, k);
      }
    } else {
      var i, j :| 0 <= i < j < |ms| && ms[i].key == ms[j].key;
      assert !AtMostOne(ms, ms[i].key) by {
        UnderAround(ms, i, ms[i].key);
        assert ms[i+1..][j - i - 1] == ms[j];
        UnderListed(ms[i+1..], j - i - 1);
      }
    }
  }

  lemma {:induction false} OneUnder(ms: seq<Member>, k: Text)
    requires Distinct(ms)
    ensures |Under(ms, k)| <= 1
  {
    if ms != [] {
      assert forall i | 0 <= i < |ms| - 1 :: ms[1..][i] == ms[i+1];
      OneUnder(ms[1..], k);
      if ms[0].key == k && Under(ms[1..], k) != [] {
        var at := UnderFrom(ms[1..], k, 0);
      }
    }
  }

  ghost predicate UniqueAt(ms: seq<Member>, k: Text) {
    |Under(ms, k)| <= 1 && (Under(ms, k) != [] ==> Unique(Under(ms, k)[0]))
  }

  lemma UniqueUnder(ms: seq<Member>)
    ensures UniqueMembers(ms) <==> forall k :: UniqueAt(ms, k)
  {
    hide Unique, Under;
    if UniqueMembers(ms) {
      DistinctUnder(ms);
      forall k
        ensures UniqueAt(ms, k)
      {
        assert AtMostOne(ms, k);
        if Under(ms, k) != [] {
          var at := UnderFrom(ms, k, 0);
        }
      }
    }
    if forall k :: UniqueAt(ms, k) {
      assert Distinct(ms) by {
        forall k
          ensures AtMostOne(ms, k)
        {
          assert UniqueAt(ms, k);
        }
        DistinctUnder(ms);
      }
      forall i | 0 <= i < |ms|
        ensures Unique(ms[i].value)
      {
        UnderListed(ms, i);
        assert UniqueAt(ms, ms[i].key);
        assert Under(ms, ms[i].key) == [ms[i].value];
      }
    }
  }

  lemma EmptyList(ms: seq<Member>)
    ensures ms == [] <==> ToMap(ms) == map[]
  {
    if ms != [] {
      assert ms[0].key in ToMap(ms);
    }
  }

  // ----- two lists as the generator walks them

  ghost predicate Walks(x: seq<Member>, y: seq<Member>, caseSensitive: bool) {
    && UniqueMembers(x) && Sorted(x, caseSensitive) && UniqueMembers(y) && Sorted(y, caseSensitive)
    && ToldApart(ToMap(x).Keys, caseSensitive) && ToldApart(ToMap(y).Keys, caseSensitive)
  }

  /** The lists without the heads that the walk has done with. */
  lemma WalkOn(x: seq<Member>, y: seq<Member>, diff: int, caseSensitive: bool)
    requires Walks(x, y, caseSensitive) && (diff <= 0 ==> x != []) && (diff >= 0 ==> y != [])
    ensures var x', y' := if diff <= 0 then x[1..] else x, if diff >= 0 then y[1..] else y;
      && Walks(x', y', caseSensitive)
      && (diff <= 0 ==>
        x[0].key in ToMap(x) && ToMap(x) == ToMap(x')[x[0].key := Denote(x[0].value)] && x[0].key !in ToMap(x'))
      && (diff >= 0 ==>
        y[0].key in ToMap(y) && ToMap(y) == ToMap(y')[y[0].key := Denote(y[0].value)] && y[0].key !in ToMap(y'))
      && (diff <= 0 ==> Unique(x[0].value)) && (diff >= 0 ==> Unique(y[0].value))
  {
    hide Denote, Unique;
    if diff <= 0 {
      HeadMap(x);
      TailSorted(x, caseSensitive);
    }
    if diff >= 0 {
      HeadMap(y);
      TailSorted(y, caseSensitive);
    }
  }

  /** The head of a sorted list comes before all names of the list. */
  lemma HeadFirst(x: seq<Member>, k: Text, caseSensitive: bool)
    requires x != [] && UniqueMembers(x) && Sorted(x, caseSensitive) && k in ToMap(x)
    ensures CompareStrings(x[0].key, k, caseSensitive) <= 0 && CompareStrings(k, x[0].key, caseSensitive) >= 0
  {
    hide Denote, ToMap, Unique;
    DistinctNames(x);
    MapOf(x);
    var i :| 0 <= i < |x| && x[i].key == k;
    CompareTotal(x[0], x[i], caseSensitive);
    if i > 0 {
      assert Sorting.Compare(x[0], x[i], caseSensitive) <= 0;
    } else {
      SelfCompare(k, caseSensitive);
    }
  }

  lemma SelfCompare(k: Text, caseSensitive: bool)
    ensures CompareStrings(k, k, caseSensitive) == 0
  {
    StrcmpZero(k, k);
    StrcmpZero(Fold(k), Fold(k));
  }

  lemma CompareBack(a: Text, b: Text, names: set<Text>, caseSensitive: bool)
    requires ToldApart(names, caseSensitive) && a in names && b in names
    ensures CompareStrings(a, b, caseSensitive) == -CompareStrings(b, a, caseSensitive)
    ensures CompareStrings(a, b, caseSensitive) == 0 <==> a == b
  {
    SameApart(a, b, names, caseSensitive);
    StrcmpAntisymmetric(a, b);
    StrcmpAntisymmetric(Fold(a), Fold(b));
  }

  lemma HeadKeys(x: seq<Member>)
    requires x != []
    ensures x[0].key in ToMap(x)
  {}

  lemma EqualHeads(x: seq<Member>, y: seq<Member>)
    requires x != [] || y != []
    ensures Order(x, y) == 0 ==> x[0].key == y[0].key
  {
    if x != [] && y != [] {
      StrcmpZero(x[0].key, y[0].key);
    }
  }

  lemma SortedWalks(s: seq<Member>, t: seq<Member>, caseSensitive: bool)
    requires UniqueMembers(s) && UniqueMembers(t)
    ensures var x, y := MergeSort(s, caseSensitive), MergeSort(t, caseSensitive);
      && ToMap(x) == ToMap(s) && ToMap(y) == ToMap(t)
      && (ToldApart(ToMap(s).Keys, caseSensitive) && ToldApart(ToMap(t).Keys, caseSensitive) ==>
        Walks(x, y, caseSensitive))
  {
    hide MergeSort, ToMap, UniqueMembers, Sorted;
    SortedMap(s, caseSensitive);
    SortedMap(t, caseSensitive);
    SortOrders(s, caseSensitive);
    SortOrders(t, caseSensitive);
  }

  lemma GenerateUnfold(depth: nat, x: seq<Member>, y: seq<Member>, caseSensitive: bool)
    requires forall m | m in x :: Depth(m.value) < depth
    ensures x == [] && y == [] ==> GenerateMembers(depth, x, y, caseSensitive) == []
    ensures x != [] || y != [] ==>
      var diff := Order(x, y);
      GenerateMembers(depth, x, y, caseSensitive) == HeadMember(depth, x, y, diff, caseSensitive)
        + GenerateMembers(depth, if diff <= 0 then x[1..] else x, if diff >= 0 then y[1..] else y, caseSensitive)
  {
    hide HeadMember, Strcmp;
  }

  // ----- in which order names are taken

  /** The peak that strcmp puts last, behind all names up to k. */
  lemma {:induction false} Highest(names: set<Text>, k: Text, caseSensitive: bool) returns (h: Text)
    requires k in names && CompareStrings(k, k, caseSensitive) == 0
    ensures h in Peaks(names, k, caseSensitive)
    ensures forall d | d in names && CompareStrings(d, k, caseSensitive) <= 0 :: d == h || Strcmp(d, h) < 0
  {
    hide CompareStrings, Strcmp;
    var all := set d | d in names && CompareStrings(d, k, caseSensitive) <= 0;
    assert k in all;
    h := Largest(all);
    assert Peak(names, h, k, caseSensitive) by {
      forall d | d in names && CompareStrings(h, d, caseSensitive) < 0 && CompareStrings(d, k, caseSensitive) <= 0
        ensures Strcmp(d, h) < 0
      {
        assert d in all;
        SelfCompare(h, caseSensitive);
      }
    }
  }

  lemma {:induction false} Largest(names: set<Text>) returns (h: Text)
    requires names != {}
    ensures h in names && forall d | d in names && d != h :: Strcmp(d, h) < 0
    decreases |names|
  {
    var a :| a in names;
    var rest := names - {a};
    if rest == {} {
      assert names == {a};
      h := a;
    } else {
      var b := Largest(rest);
      StrcmpZero(a, b);
      StrcmpAntisymmetric(a, b);
      h := if Strcmp(a, b) < 0 then b else a;
      forall d | d in names && d != h
        ensures Strcmp(d, h) < 0
      {
        if d != a && d != b {
          StrcmpTransitive(d, b, h) by { StrcmpZero(b, b); }
        }
      }
    }
  }

  /** The name that sorts before all the others. */
  ghost predicate Foremost(names: set<Text>, a: Text, caseSensitive: bool) {
    a in names && forall d | d in names && d != a ::
      CompareStrings(a, d, caseSensitive) < 0 < CompareStrings(d, a, caseSensitive)
  }

  /** The head of a sorted list among its names. */
  lemma HeadForemost(x: seq<Member>, caseSensitive: bool)
    requires x != [] && UniqueMembers(x) && Sorted(x, caseSensitive) && ToldApart(ToMap(x).Keys, caseSensitive)
    ensures Foremost(ToMap(x).Keys, x[0].key, caseSensitive) && ToMap(x[1..]).Keys == ToMap(x).Keys - {x[0].key}
  {
    hide Denote, Unique, CompareStrings;
    HeadMap(x);
    HeadKeys(x);
    forall d | d in ToMap(x) && d != x[0].key
      ensures CompareStrings(x[0].key, d, caseSensitive) < 0 < CompareStrings(d, x[0].key, caseSensitive)
    {
      HeadFirst(x, d, caseSensitive);
      CompareBack(x[0].key, d, ToMap(x).Keys, caseSensitive);
    }
  }

  /** It has no part in what comes after it, and nothing is in front of it. */
  lemma PeaksOn(names: set<Text>, a: Text, k: Text, caseSensitive: bool)
    requires Foremost(names, a, caseSensitive)
    ensures Peaks(names - {a}, k, caseSensitive) == Peaks(names, k, caseSensitive) - {a}
    ensures Peaks(names, a, caseSensitive) == {a}
  {
    hide Strcmp, CompareStrings;
    SelfCompare(a, caseSensitive);
    assert forall d | d in names - {a} :: CompareStrings(d, a, caseSensitive) > 0;
  }

  /** Held up by a name behind all those in the way of the other list. */
  lemma HeldUp(s: set<Text>, t: set<Text>, k: Text, h: Text, caseSensitive: bool)
    requires h in Peaks(t, k, caseSensitive) && forall e | e in Peaks(s, k, caseSensitive) :: Strcmp(e, h) < 0
    ensures ArrivalAt(s, t, k, caseSensitive) == FromFirst && ArrivalAt(t, s, k, caseSensitive) == ToFirst
  {
    hide Peaks;
    StrcmpZero(h, h);
    var p, q := Peaks(s, k, caseSensitive), Peaks(t, k, caseSensitive);
    assert h in q - p;
    forall e | e in p - q
      ensures !(forall g | g in q - p :: Strcmp(g, e) < 0)
    {
      StrcmpAntisymmetric(e, h);
    }
  }

  /** A name that holds up its own list, while the other is held up by one that strcmp puts behind it. */
  lemma Overshadowed(s: set<Text>, t: set<Text>, a: Text, k: Text, h: Text, caseSensitive: bool)
    requires Foremost(s, a, caseSensitive) && a in Peaks(s, k, caseSensitive)
    requires h in Peaks(t, k, caseSensitive) && Strcmp(a, h) < 0
    ensures forall e | e in Peaks(s, k, caseSensitive) :: Strcmp(e, h) < 0
  {
    hide Strcmp, CompareStrings;
    forall e | e in Peaks(s, k, caseSensitive)
      ensures Strcmp(e, h) < 0
    {
      if e != a {
        StrcmpTransitive(e, a, h);
      }
    }
  }

  /** The walk passes a name of one list: it was there before the other list's copy, and for others nothing changes. */
  lemma PassOne(s: set<Text>, t: set<Text>, a: Text, b: Text, k: Text, caseSensitive: bool)
    requires Foremost(s, a, caseSensitive) && Foremost(t, b, caseSensitive) && Strcmp(a, b) < 0 && k in s && k in t
    ensures k == a ==> ArrivalAt(s, t, k, caseSensitive) == FromFirst && ArrivalAt(t, s, k, caseSensitive) == ToFirst
    ensures k != a ==>
      && ArrivalAt(s - {a}, t, k, caseSensitive) == ArrivalAt(s, t, k, caseSensitive)
      && ArrivalAt(t, s - {a}, k, caseSensitive) == ArrivalAt(t, s, k, caseSensitive)
  {
    hide Strcmp, CompareStrings, Peaks, ArrivalAt;
    SelfCompare(k, caseSensitive);
    PeaksOn(s, a, k, caseSensitive);
    if a in Peaks(s, k, caseSensitive) {
      var h := Highest(t, k, caseSensitive);
      if b != h {
        StrcmpTransitive(a, b, h);
      }
      Overshadowed(s, t, a, k, h, caseSensitive);
      HeldUp(s, t, k, h, caseSensitive);
      HeldUp(s - {a}, t, k, h, caseSensitive);
    } else {
      assert Peaks(s - {a}, k, caseSensitive) == Peaks(s, k, caseSensitive);
      SamePeaks(s, t, s - {a}, t, k, caseSensitive);
    }
  }

  lemma SamePeaks(s: set<Text>, t: set<Text>, s': set<Text>, t': set<Text>, k: Text, caseSensitive: bool)
    requires var p, q := Peaks(s, k, caseSensitive), Peaks(t, k, caseSensitive);
      var p', q' := Peaks(s', k, caseSensitive), Peaks(t', k, caseSensitive);
      p - q == p' - q' && q - p == q' - p'
    ensures ArrivalAt(s, t, k, caseSensitive) == ArrivalAt(s', t', k, caseSensitive)
    ensures ArrivalAt(t, s, k, caseSensitive) == ArrivalAt(t', s', k, caseSensitive)
  {
    hide Peaks;
    var p, q := Peaks(s, k, caseSensitive), Peaks(t, k, caseSensitive);
    var p', q' := Peaks(s', k, caseSensitive), Peaks(t', k, caseSensitive);
    assert p == q <==> p - q == {} && q - p == {};
    assert p' == q' <==> p' - q' == {} && q' - p' == {};
  }

  /** The walk takes a name from both lists at once. */
  lemma PassBoth(s: set<Text>, t: set<Text>, a: Text, k: Text, caseSensitive: bool)
    requires Foremost(s, a, caseSensitive) && Foremost(t, a, caseSensitive) && k in s && k in t
    ensures k == a ==> ArrivalAt(s, t, k, caseSensitive) == Together
    ensures k != a ==> ArrivalAt(s - {a}, t - {a}, k, caseSensitive) == ArrivalAt(s, t, k, caseSensitive)
  {
    hide Strcmp, CompareStrings, Peaks;
    SelfCompare(k, caseSensitive);
    PeaksOn(s, a, k, caseSensitive);
    PeaksOn(t, a, k, caseSensitive);
    if a in Peaks(s, k, caseSensitive) && a !in Peaks(t, k, caseSensitive) {
      Ahead(s, t, a, k, caseSensitive);
    } else if a !in Peaks(s, k, caseSensitive) && a in Peaks(t, k, caseSensitive) {
      Ahead(t, s, a, k, caseSensitive);
    } else {
      SamePeaks(s, t, s - {a}, t - {a}, k, caseSensitive);
    }
  }

  lemma Ahead(s: set<Text>, t: set<Text>, a: Text, k: Text, caseSensitive: bool)
    requires Foremost(s, a, caseSensitive) && Foremost(t, a, caseSensitive) && k in s && k in t && k != a
    requires a in Peaks(s, k, caseSensitive) && a !in Peaks(t, k, caseSensitive)
    ensures ArrivalAt(s, t, k, caseSensitive) == ArrivalAt(s - {a}, t - {a}, k, caseSensitive) == FromFirst
    ensures ArrivalAt(t, s, k, caseSensitive) == ArrivalAt(t - {a}, s - {a}, k, caseSensitive) == ToFirst
  {
    hide Strcmp, CompareStrings, Peaks, ArrivalAt;
    SelfCompare(k, caseSensitive);
    PeaksOn(s, a, k, caseSensitive);
    PeaksOn(t, a, k, caseSensitive);
    var h := Highest(t, k, caseSensitive);
    Overshadowed(s, t, a, k, h, caseSensitive);
    HeldUp(s, t, k, h, caseSensitive);
    HeldUp(s - {a}, t - {a}, k, h, caseSensitive);
  }

  /** One step of the walk: it settles how the name at the head arrives, and nothing else. */
  lemma ArrivalOn(x: seq<Member>, y: seq<Member>, k: Text, caseSensitive: bool)
    requires Walks(x, y, caseSensitive) && k in ToMap(x) && k in ToMap(y) && (x != [] || y != [])
    ensures var diff := Order(x, y);
      var x', y' := if diff <= 0 then x[1..] else x, if diff >= 0 then y[1..] else y;
      ArrivalAt(ToMap(x).Keys, ToMap(y).Keys, k, caseSensitive) ==
        if k == (if diff <= 0 then x[0].key else y[0].key)
        then if diff < 0 then FromFirst else if diff > 0 then ToFirst else Together
        else ArrivalAt(ToMap(x').Keys, ToMap(y').Keys, k, caseSensitive)
  {
    hide Strcmp, CompareStrings, ArrivalAt, Foremost, Sorted, UniqueMembers, Denote;
    assert x != [] && y != [];
    EqualHeads(x, y);
    StrcmpAntisymmetric(x[0].key, y[0].key);
    HeadForemost(x, caseSensitive);
    HeadForemost(y, caseSensitive);
    var s, t, a, b := ToMap(x).Keys, ToMap(y).Keys, x[0].key, y[0].key;
    var diff := Order(x, y);
    if diff < 0 {
      PassOne(s, t, a, b, k, caseSensitive);
    } else if diff > 0 {
      PassOne(t, s, b, a, k, caseSensitive);
    } else {
      PassBoth(s, t, a, k, caseSensitive);
    }
  }

  /** The walk never meets a head that the other list has further on. */
  ghost predicate Clean(x: seq<Member>, y: seq<Member>)
    decreases |x| + |y|
  {
    x != [] || y != [] ==>
      var diff := Order(x, y);
      && (diff < 0 ==> x[0].key !in ToMap(y)) && (diff > 0 ==> y[0].key !in ToMap(x))
      && Clean(if diff <= 0 then x[1..] else x, if diff >= 0 then y[1..] else y)
  }

  /** The walk is clean if and only if the names are in step. */
  lemma {:induction false} CleanIsInStep(x: seq<Member>, y: seq<Member>, caseSensitive: bool)
    requires Walks(x, y, caseSensitive)
    ensures Clean(x, y) <==> InStep(ToMap(x), ToMap(y), caseSensitive)
    decreases |x| + |y|
  {
    hide Denote, ToMap, Strcmp, Walks, ArrivalAt;
    if x == [] && y == [] {
      EmptyList(x);
    } else {
      var diff := Order(x, y);
      var x', y' := if diff <= 0 then x[1..] else x, if diff >= 0 then y[1..] else y;
      WalkOn(x, y, diff, caseSensitive);
      EqualHeads(x, y);
      CleanIsInStep(x', y', caseSensitive);
      var f, t, f', t' := ToMap(x), ToMap(y), ToMap(x'), ToMap(y');
      forall k | k in f && k in t
        ensures k == (if diff <= 0 then x[0].key else y[0].key) ==>
          (ArrivalAt(f.Keys, t.Keys, k, caseSensitive) == Together <==> diff == 0)
        ensures k in f' && k in t' && k != (if diff <= 0 then x[0].key else y[0].key) ==>
          ArrivalAt(f.Keys, t.Keys, k, caseSensitive) == ArrivalAt(f'.Keys, t'.Keys, k, caseSensitive)
      {
        ArrivalOn(x, y, k, caseSensitive);
      }
    }
  }

  // ----- what the walk makes of one name

  /** What the patch says of a name that is taken from both at once. */
  function Change(u: Json, v: Json, caseSensitive: bool): (c: seq<Json>)
    ensures |c| <= 1
  {
    var c := CompareJson(u, v, caseSensitive);
    if c.same then []
    else
      var patch := GenerateMergePatch(c.a, c.b, false);
      if patch.None? then [] else [patch.value]
  }

  /** What the patch says of a name with the given values on both sides. */
  ghost function Told(u: seq<Json>, v: seq<Json>, arrival: Arrival, caseSensitive: bool): seq<Json> {
    if u == [] then if v == [] then [] else [Fresh(v[0])]
    else if v == [] then [Null]
    else
      match arrival
      case Together => Change(u[0], v[0], caseSensitive)
      case FromFirst => [Null, Fresh(v[0])]
      case ToFirst => [Fresh(v[0]), Null]
  }

  lemma HeadTells(depth: nat, x: seq<Member>, y: seq<Member>, diff: int, k: Text, caseSensitive: bool)
    requires forall m | m in x :: Depth(m.value) < depth
    requires (diff <= 0 ==> x != []) && (diff >= 0 ==> y != []) && (diff == 0 ==> x[0].key == y[0].key)
    ensures Under(HeadMember(depth, x, y, diff, caseSensitive), k) ==
      if k != (if diff <= 0 then x[0].key else y[0].key) then []
      else if diff < 0 then [Null] else if diff > 0 then [Fresh(y[0].value)]
      else Change(x[0].value, y[0].value, caseSensitive)
  {
    hide CompareJson, GenerateMergePatch;
    var h := HeadMember(depth, x, y, diff, caseSensitive);
    if h != [] {
      UnderOne(h[0], k);
    }
  }

  /** What is under a name before and after a step of the walk. */
  lemma UnderOn(x: seq<Member>, y: seq<Member>, diff: int, k: Text, caseSensitive: bool)
    requires Walks(x, y, caseSensitive) && (diff <= 0 ==> x != []) && (diff >= 0 ==> y != [])
    requires diff == 0 ==> x[0].key == y[0].key
    ensures var x', y' := if diff <= 0 then x[1..] else x, if diff >= 0 then y[1..] else y;
      if k != (if diff <= 0 then x[0].key else y[0].key) then Under(x, k) == Under(x', k) && Under(y, k) == Under(y', k)
      else
        && (if diff <= 0 then Under(x, k) == [x[0].value] && Under(x', k) == [] else Under(x, k) == Under(x', k))
        && (if diff >= 0 then Under(y, k) == [y[0].value] && Under(y', k) == [] else Under(y, k) == Under(y', k))
  {
    hide Under, ToMap, Denote, Walks;
    WalkOn(x, y, diff, caseSensitive);
    if diff <= 0 {
      UnderHead(x, k);
      UnderMeans(x[1..], k);
    }
    if diff >= 0 {
      UnderHead(y, k);
      UnderMeans(y[1..], k);
    }
  }

  /** The generated patch, name by name. */
  lemma {:induction false} GeneratedUnder(depth: nat, x: seq<Member>, y: seq<Member>, k: Text, caseSensitive: bool)
    requires forall m | m in x :: Depth(m.value) < depth
    requires Walks(x, y, caseSensitive)
    ensures Under(GenerateMembers(depth, x, y, caseSensitive), k) ==
      Told(Under(x, k), Under(y, k), ArrivalAt(ToMap(x).Keys, ToMap(y).Keys, k, caseSensitive), caseSensitive)
    decreases |x| + |y|
  {
    hide Denote, ToMap, Strcmp, Walks, ArrivalAt, GenerateMembers, HeadMember, Change, Under;
    GenerateUnfold(depth, x, y, caseSensitive);
    if x == [] && y == [] {
      NothingUnder(k);
    } else {
      var diff := Order(x, y);
      var x', y' := if diff <= 0 then x[1..] else x, if diff >= 0 then y[1..] else y;
      WalkOn(x, y, diff, caseSensitive);
      EqualHeads(x, y);
      GeneratedUnder(depth, x', y', k, caseSensitive);
      UnderConcat(HeadMember(depth, x, y, diff, caseSensitive), GenerateMembers(depth, x', y', caseSensitive), k);
      HeadTells(depth, x, y, diff, k, caseSensitive);
      UnderOn(x, y, diff, k, caseSensitive);
      UnderMeans(x, k);
      UnderMeans(y, k);
      if k in ToMap(x) && k in ToMap(y) {
        ArrivalOn(x, y, k, caseSensitive);
      }
    }
  }
}
