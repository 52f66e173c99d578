/** Patches that only remove members: exactly when they lead to their goal, names alike up to case included. */
module PatchRemovals {
  import opened Basics
  import opened Strings
  import opened Sorting
  import opened Tails
  import opened Json
  import opened Pointer
  import opened PointerDecoding
  import opened Readback
  import opened Patch
  import opened PatchFrames
  import opened PatchShapes
  import opened PatchMembers
  import opened PatchRoundTrip
  import opened PatchConverse
  import opened PatchExact

  // ----- equal data gives no patches

  lemma {:induction false} NoPatches(path: Text, from: Json, to: Json)
    requires Unique(from) && Unique(to) && Denote(from) == Denote(to)
    ensures CreateEdits(path, from, to, true) == []
    decreases Depth(from), 1, 0
  {
    hide ItemEdits, MemberEdits, MergeSort;
    match from
    case Array(s) =>
      ArrayParts(s, to.items);
      NoItemPatches(path, from, s, to.items, 0);
    case Object(s, _) =>
      SameMembers(from, to);
      ListOkSorted(s);
      ListOkSorted(to.members);
      DeeperMembers(from);
      NoMemberPatches(path, from, MergeSort(s, true), MergeSort(to.members, true));
    case _ =>
      ReplacedEdits(path, from, to);
  }

  lemma SameMembers(from: Json, to: Json)
    requires from.Object? && Unique(from) && Unique(to) && Denote(from) == Denote(to)
    ensures to.Object? && UniqueMembers(from.members) && UniqueMembers(to.members)
    ensures ToMap(from.members) == ToMap(to.members)
  {}

  lemma DeeperMembers(from: Json)
    requires from.Object?
    ensures forall m | m in MergeSort(from.members, true) :: m.value < from && Depth(m.value) < Depth(from)
  {
    var x := MergeSort(from.members, true);
    SortPermutes(from.members, true);
    forall m | m in x
      ensures m.value < from && Depth(m.value) < Depth(from)
    {
      SameElements(from.members, x, m);
    }
  }

  lemma {:induction false} NoItemPatches(path: Text, whole: Json, s: seq<Json>, t: seq<Json>, index: nat)
    requires |s| == |t| && forall i | 0 <= i < |s| ::
      Unique(s[i]) && Unique(t[i]) && Denote(s[i]) == Denote(t[i]) && Depth(s[i]) < Depth(whole)
    ensures ItemEdits(path, s, t, index, true) == []
    decreases Depth(whole), 0, |s|
  {
    hide CreateEdits, Digits;
    if s != [] {
      NoPatches(path + [SLASH] + Digits(index), s[0], t[0]);
      assert forall i | 0 <= i < |s| - 1 :: s[1..][i] == s[i+1] && t[1..][i] == t[i+1];
      NoItemPatches(path, whole, s[1..], t[1..], index + 1);
    }
  }

  lemma {:induction false} NoMemberPatches(path: Text, whole: Json, x: seq<Member>, y: seq<Member>)
    requires forall m | m in x :: m.value < whole && Depth(m.value) < Depth(whole)
    requires ListOk(x) && ListOk(y) && ToMap(x) == ToMap(y)
    ensures MemberEdits(whole, path, x, y, true) == []
    decreases Depth(whole), 0, |x|
  {
    hide CreateEdits, MemberEdits, CompareStrings, ToMap, Denote, Sorted, Unique;
    MemberEditsUnfold(whole, path, x, y, true);
    if x != [] || y != [] {
      HeadsOfMaps(x, y, []);
      HeadParts(x, y);
      NoPatches(path + [SLASH] + Encode(x[0].key), x[0].value, y[0].value);
      NoMemberPatches(path, whole, x[1..], y[1..]);
    }
  }

  lemma HeadParts(x: seq<Member>, y: seq<Member>)
    requires UniqueMembers(x) && UniqueMembers(y)
    ensures x != [] ==> Unique(x[0].value) && x[0].key in ToMap(x) && ToMap(x)[x[0].key] == Denote(x[0].value)
    ensures y != [] ==> Unique(y[0].value) && y[0].key in ToMap(y) && ToMap(y)[y[0].key] == Denote(y[0].value)
  {}

  // ----- the patches of a pair that only loses members

  /** Nothing is new, and what is left is as it was. */
  ghost predicate Within(t: map<Text, Value>, f: map<Text, Value>) {
    forall k | k in t :: k in f && f[k] == t[k]
  }

  function Removals(ks: seq<Text>): seq<Edit> {
    if ks == [] then [] else [Edit(REMOVE, KeyPath(ks[0]), None)] + Removals(ks[1..])
  }

  ghost predicate NoRepeats(ks: seq<Text>) {
    forall i, j | 0 <= i < j < |ks| :: ks[i] != ks[j]
  }

  lemma {:induction false} OnlyRemovals(whole: Json, x: seq<Member>, y: seq<Member>) returns (ks: seq<Text>)
    requires forall m | m in x :: m.value < whole && Depth(m.value) < Depth(whole)
    requires ListOk(x) && ListOk(y) && Within(ToMap(y), ToMap(x))
    ensures MemberEdits(whole, [], x, y, true) == Removals(ks) && NoRepeats(ks)
    ensures forall k :: k in ks <==> k in ToMap(x) && k !in ToMap(y)
    decreases |x| + |y|
  {
    hide CreateEdits, MemberEdits, CompareStrings, ToMap, Denote, Sorted, Unique, Encode;
    MemberEditsUnfold(whole, [], x, y, true);
    if x == [] && y == [] {
      EmptyMaps();
      ks := [];
    } else {
      var diff := Turn(x, y, true);
      HeadsOfMaps(x, y, []);
      HeadParts(x, y);
      var h := HeadName(x, y, diff);
      var rest := OnlyRemovals(whole, if diff <= 0 then x[1..] else x, if diff >= 0 then y[1..] else y);
      assert [] + [SLASH] + Encode(h) == KeyPath(h);
      if diff == 0 {
        NoPatches(KeyPath(h), x[0].value, y[0].value);
        ks := rest;
      } else {
        ks := [h] + rest;
        assert ks[1..] == rest;
      }
    }
  }

  // ----- what removing by names does to a list

  /** One removal after the other, each of the first member alike up to case. */
  function Drops(ms: seq<Member>, ks: seq<Text>): Option<seq<Member>>
    decreases |ks|
  {
    if ks == [] then Some(ms)
    else
      var i := FindKey(ms, ks[0], false);
      if i == |ms| then None else Drops(RemoveAt(ms, i), ks[1..])
  }

  lemma {:induction false} RemovalsDrop(ms: seq<Member>, ks: seq<Text>)
    requires forall k | k in ks :: Survives(k)
    ensures AllGenerated(Removals(ks))
    ensures var r := ApplyEdits(Object(ms), Removals(ks));
      if Drops(ms, ks).Some? then r == Applied(0, Object(Drops(ms, ks).value)) else !Succeeds(r)
    decreases |ks|
  {
    hide FindKey, RemoveAt, Survives, ApplyEdit, Encode, ReadBack;
    if ks != [] {
      DecodeUndoesEncodeHere(ks[0]);
      RemoveActs(ms, Last, ks[0]);
      assert Removals(ks)[0] == Edit(REMOVE, KeyPath(ks[0]), None) && Removals(ks)[1..] == Removals(ks[1..]);
      var i := FindKey(ms, ks[0], false);
      LastTail(ms, i);
      RemovalsDrop(if i < |ms| then RemoveAt(ms, i) else ms, ks[1..]);
    }
  }

  lemma LastTail(ms: seq<Member>, i: nat)
    ensures i < |ms| ==> RemoveTail(|ms|, Last, i) == Last
  {}

  ghost function Names(ms: seq<Member>): set<Text> {
    set i | 0 <= i < |ms| :: ms[i].key
  }

  /** In each class of names alike up to case, those that go come first. */
  ghost predicate FirstGo(ms: seq<Member>, gone: set<Text>) {
    forall i, j | 0 <= i < j < |ms| && Fold(ms[i].key) == Fold(ms[j].key) && ms[j].key in gone :: ms[i].key in gone
  }

  /** Only the class of a name matters. */
  lemma {:induction false} DropsAlike(ms: seq<Member>, ks: seq<Text>, ls: seq<Text>)
    requires |ks| == |ls| && forall i | 0 <= i < |ks| :: Fold(ks[i]) == Fold(ls[i])
    ensures Drops(ms, ks) == Drops(ms, ls)
    decreases |ks|
  {
    if ks != [] {
      FindAlike(ms, ks[0], ls[0]);
      assert forall i | 0 <= i < |ks| - 1 :: ks[1..][i] == ks[i+1] && ls[1..][i] == ls[i+1];
      var i := FindKey(ms, ks[0], false);
      if i < |ms| {
        DropsAlike(RemoveAt(ms, i), ks[1..], ls[1..]);
      }
    }
  }

  lemma {:induction false} FindAlike(ms: seq<Member>, k: Text, l: Text)
    requires Fold(k) == Fold(l)
    ensures FindKey(ms, k, false) == FindKey(ms, l, false)
  {
    hide Fold, Strcmp;
    if ms != [] {
      FindAlike(ms[1..], k, l);
    }
  }

  /** The member that a removal takes: the first of its class. */
  lemma FirstOfClass(ms: seq<Member>, k: Text) returns (i: nat)
    requires Distinct(ms) && k in Names(ms)
    ensures i == FindKey(ms, k, false) < |ms| && Fold(ms[i].key) == Fold(k)
    ensures forall j | 0 <= j < i :: Fold(ms[j].key) != Fold(k)
    ensures Distinct(RemoveAt(ms, i)) && Names(RemoveAt(ms, i)) == Names(ms) - {ms[i].key}
    ensures forall j | 0 <= j < |ms| - 1 :: RemoveAt(ms, i)[j] == ms[if j < i then j else j + 1]
  {
    hide Fold, Strcmp, FindKey;
    i := FindKey(ms, k, false);
    StrcmpZero(Fold(k), Fold(k));
    forall j | 0 <= j < |ms|
      ensures CompareStrings(k, ms[j].key, false) == 0 <==> Fold(ms[j].key) == Fold(k)
    {
      StrcmpZero(Fold(k), Fold(ms[j].key));
    }
    RemovedDistinct(ms, i);
    var r := RemoveAt(ms, i);
    forall k | k in Names(ms) - {ms[i].key}
      ensures k in Names(r)
    {
      var j :| 0 <= j < |ms| && ms[j].key == k;
      assert r[if j < i then j else j - 1] == ms[j];
    }
    assert Names(r) == Names(ms) - {ms[i].key};
  }

  /** Taking away the first of a class, one that is to go, changes nothing for the others. */
  lemma FirstGoOn(ms: seq<Member>, gone: set<Text>, i: nat, r: seq<Member>)
    requires Distinct(ms) && i < |ms| && ms[i].key in gone && |r| == |ms| - 1
    requires forall j | 0 <= j < i :: Fold(ms[j].key) != Fold(ms[i].key)
    requires forall j | 0 <= j < |ms| - 1 :: r[j] == ms[if j < i then j else j + 1]
    ensures FirstGo(ms, gone) <==> FirstGo(r, gone - {ms[i].key})
  {
    hide Fold;
    var left := gone - {ms[i].key};
    if FirstGo(r, left) {
      forall a, b | 0 <= a < b < |ms| && Fold(ms[a].key) == Fold(ms[b].key) && ms[b].key in gone
        ensures ms[a].key in gone
      {
        if a != i && b != i {
          var a', b' := if a < i then a else a - 1, if b < i then b else b - 1;
          assert r[a'] == ms[a] && r[b'] == ms[b];
        }
      }
    }
    if FirstGo(ms, gone) {
      forall a, b | 0 <= a < b < |r| && Fold(r[a].key) == Fold(r[b].key) && r[b].key in left
        ensures r[a].key in left
      {
        var a', b' := if a < i then a else a + 1, if b < i then b else b + 1;
        assert r[a] == ms[a'] && r[b] == ms[b'] && a' < b';
      }
    }
  }

  ghost function Listed(ks: seq<Text>): set<Text> {
    set k | k in ks
  }

  /** The removals always succeed; they remove what they name if and only if in each class the first names are to go. */
  lemma {:induction false} DropsExactly(ms: seq<Member>, ks: seq<Text>)
    requires Distinct(ms) && NoRepeats(ks) && Listed(ks) <= Names(ms)
    ensures var r := Drops(ms, ks);
      && r.Some? && Distinct(r.value) && (forall m | m in r.value :: m in ms)
      && (Names(r.value) == Names(ms) - Listed(ks) <==> FirstGo(ms, Listed(ks)))
    decreases |ks|
  {
    hide Fold, FindKey, RemoveAt, FirstGo, Distinct;
    if ks == [] {
      NoneGoes(ms);
      assert Names(ms) - Listed(ks) == Names(ms);
    } else {
      var k, rest := ks[0], ks[1..];
      assert k in Listed(ks);
      var i := FirstOfClass(ms, k);
      var h, r := ms[i].key, RemoveAt(ms, i);
      assert forall m | m in r :: m in ms;
      assert Listed(rest) == Listed(ks) - {k} by {
        assert forall j | 0 <= j < |rest| :: rest[j] == ks[j+1];
      }
      if h in Listed(ks) {
        var ls := Swapped(ks, k, h);
        DropsAlike(r, rest, ls);
        DropsExactly(r, ls);
        FirstGoOn(ms, Listed(ks), i, r);
        assert Names(r) - Listed(ls) == Names(ms) - Listed(ks);
      } else {
        DropsExactly(r, rest);
        WrongGone(ms, Listed(ks), i, k);
        SubNames(Drops(r, rest).value, r);
        assert h in Names(ms) - Listed(ks) && h !in Names(Drops(r, rest).value);
      }
    }
  }

  lemma NoneGoes(ms: seq<Member>)
    ensures FirstGo(ms, Listed([]))
  {}

  lemma SubNames(r: seq<Member>, ms: seq<Member>)
    requires forall m | m in r :: m in ms
    ensures Names(r) <= Names(ms)
  {
    forall k | k in Names(r)
      ensures k in Names(ms)
    {
      var i :| 0 <= i < |r| && r[i].key == k;
      assert r[i] in r;
      var j :| 0 <= j < |ms| && ms[j] == r[i];
    }
  }

  /** A member that is to stay comes before one of its class that is to go. */
  lemma WrongGone(ms: seq<Member>, gone: set<Text>, i: nat, k: Text)
    requires i < |ms| && ms[i].key !in gone && k in gone && k in Names(ms) && Fold(ms[i].key) == Fold(k)
    requires forall j | 0 <= j < i :: Fold(ms[j].key) != Fold(k)
    ensures !FirstGo(ms, gone)
  {
    var j :| 0 <= j < |ms| && ms[j].key == k;
    assert i < j;
  }

  /** The rest of the list, with the name that has gone replaced by the one that was meant. */
  lemma Swapped(ks: seq<Text>, k: Text, h: Text) returns (ls: seq<Text>)
    requires ks != [] && NoRepeats(ks) && k == ks[0] && h in ks && Fold(h) == Fold(k)
    ensures |ls| == |ks| - 1 && NoRepeats(ls) && Listed(ls) == Listed(ks) - {h}
    ensures forall i | 0 <= i < |ls| :: Fold(ls[i]) == Fold(ks[1..][i])
  {
    hide Fold;
    var rest := ks[1..];
    assert forall j | 0 <= j < |rest| :: rest[j] == ks[j+1];
    if h == k {
      ls := rest;
    } else {
      var p :| 0 <= p < |ks| && ks[p] == h;
      ls := rest[p-1 := k];
      assert ls[p-1] == k;
      forall l | l in Listed(ks) - {h}
        ensures l in ls
      {
        if l != k {
          var j :| 0 <= j < |ks| && ks[j] == l;
          assert ls[j-1] == l;
        }
      }
    }
    assert Listed(ls) == Listed(ks) - {h};
  }

  // ----- the round trip

  /** What is left means the goal if and only if it has its names. */
  lemma LeftMeans(r: seq<Member>, ms: seq<Member>, t: map<Text, Value>)
    requires UniqueMembers(ms) && Distinct(r) && (forall m | m in r :: m in ms) && Within(t, ToMap(ms))
    ensures Unique(Object(r)) && (Denote(Object(r)) == VObject(t) <==> Names(r) == t.Keys)
  {
    hide ToMap, Unique;
    MapOf(r);
    MapOf(ms);
    forall i | 0 <= i < |r|
      ensures Unique(r[i].value) && r[i].key in ToMap(ms) && ToMap(ms)[r[i].key] == Denote(r[i].value)
    {
      assert r[i] in r;
      var j :| 0 <= j < |ms| && ms[j] == r[i];
    }
    assert ToMap(r).Keys == Names(r);
    ObjectMeans(Object(r));
    if Names(r) == t.Keys {
      forall k | k in t
        ensures ToMap(r)[k] == t[k]
      {
        var i :| 0 <= i < |r| && r[i].key == k;
      }
      assert ToMap(r) == t;
    }
  }

  /** The patches of such a pair, when all their names survive. */
  lemma RemovalsRun(copy: Json, from: Json, to: Json)
    requires Ready(copy) && Unique(from) && Unique(to) && Denote(copy) == Denote(from)
    requires from.Object? && to.Object? && copy.Object? && Within(ToMap(to.members), ToMap(from.members))
    requires forall k | k in ToMap(from.members) && k !in ToMap(to.members) :: Survives(k)
    ensures AllGenerated(CreateEdits([], from, to, true))
    ensures Reaches(ApplyEdits(copy, CreateEdits([], from, to, true)), to) <==>
      FirstGo(copy.members, ToMap(from.members).Keys - ToMap(to.members).Keys)
  {
    hide CreateEdits, MemberEdits, ApplyEdits, Ready, MergeSort, ToMap, Survives, FirstGo, AllGenerated, Denote, Unique;
    var f, t, ms := ToMap(from.members), ToMap(to.members), copy.members;
    ReadyParts(copy, from);
    ObjectEdits(from, to);
    ObjectMeans(from);
    ObjectMeans(to);
    ListOkSorted(from.members);
    ListOkSorted(to.members);
    var ks := OnlyRemovals(from, MergeSort(from.members, true), MergeSort(to.members, true));
    assert Listed(ks) == f.Keys - t.Keys;
    RemovalsDrop(ms, ks);
    NamesOfMap(ms);
    DistinctNames(ms);
    DropsExactly(ms, ks);
    LeftMeans(Drops(ms, ks).value, ms, t);
    assert f.Keys - (f.Keys - t.Keys) == t.Keys;
  }

  /**
   RFC 6902, section 4.2, for every copy: generated patches that only remove members reach
   their goal if and only if the removed names survive and, among the names that are alike
   up to case, the removed ones come first.
   */
  lemma RemovalsExactly(copy: Json, from: Json, to: Json)
    requires Ready(copy) && Unique(from) && Unique(to) && Denote(copy) == Denote(from)
    requires from.Object? && to.Object? && Within(ToMap(to.members), ToMap(from.members))
    ensures copy.Object?
    ensures var gone := ToMap(from.members).Keys - ToMap(to.members).Keys;
      Reaches(ApplyPatches(copy, GeneratePatches(from, to, true), true), to) <==>
        (forall k | k in gone :: Survives(k)) && FirstGo(copy.members, gone)
  {
    hide CreateEdits, ApplyEdits, ApplyAll, Reaches, Ready, ToMap, Survives, FirstGo, AllGenerated, NamesSurvive,
      Denote, Unique;
    ReadyParts(copy, from);
    var gone := ToMap(from.members).Keys - ToMap(to.members).Keys;
    ReachedNamesSurvive(copy, from, to);
    ComposeAllApplies(copy, CreateEdits([], from, to, true));
    if NamesSurvive(Denote(from), Denote(to)) {
      GoneTouched(from, to);
    }
    if forall k | k in gone :: Survives(k) {
      RemovalsRun(copy, from, to);
    }
  }

  lemma NamesOfMap(ms: seq<Member>)
    requires UniqueMembers(ms)
    ensures Names(ms) == ToMap(ms).Keys
  {
    MapOf(ms);
  }

  lemma GoneTouched(from: Json, to: Json)
    requires from.Object? && to.Object? && NamesSurvive(Denote(from), Denote(to))
    ensures forall k | k in ToMap(from.members) && k !in ToMap(to.members) :: Survives(k)
  {
    forall k | k in ToMap(from.members) && k !in ToMap(to.members)
      ensures Survives(k)
    {
      assert k in ToMap(from.members).Keys + ToMap(to.members).Keys;
      assert Touched(ToMap(from.members), ToMap(to.members), k);
    }
  }
}
