/**
 When the round trip fails. Whatever the copy, it succeeds only if the names that are
 removed, added or replaced survive being written and read back; and where there is one
 patch to apply, exactly if that patch fits.
 */
module PatchConverse {
  import opened Basics
  import opened Strings
  import opened Sorting
  import opened Tails
  import opened Json
  import opened Pointer
  import opened PointerProofs
  import opened PointerDecoding
  import opened Readback
  import opened Patch
  import opened PatchFrames
  import opened PatchShapes
  import opened PatchMembers
  import opened PatchRoundTrip

  /** The name is removed, added or given another value as a whole. */
  ghost predicate Touched(f: map<Text, Value>, t: map<Text, Value>, k: Text) {
    (k in f || k in t) && !(k in f && k in t && !Replaced(f[k], t[k]))
  }

  /** Each member that is removed, added or replaced as a whole has a name that survives. */
  ghost predicate NamesSurvive(f: Value, t: Value)
    decreases f
  {
    match (f, t)
    case (VArray(s), VArray(u)) => forall i | 0 <= i < |s| && i < |u| :: NamesSurvive(s[i], u[i])
    case (VObject(s), VObject(u)) =>
      && (forall k | k in s.Keys + u.Keys && Touched(s, u, k) :: Survives(k))
      && (forall k | k in s && k in u && !Replaced(s[k], u[k]) :: NamesSurvive(s[k], u[k]))
    case _ => true
  }

  // ----- what becomes of one member while patches for other names are applied

  /** An object as the walk keeps it: distinct names, and appending arrives at the end. */
  ghost predicate Steady(j: Json) {
    j.Object? && j.tail.Last? && Distinct(j.members)
  }

  function Found(j: Json, k: Text): Option<Json> {
    GetItem(j, k, true)
  }

  lemma RemovedFades(ms: seq<Member>, i: nat, k: Text)
    requires Distinct(ms) && i < |ms|
    ensures var j' := Object(RemoveAt(ms, i)); Steady(j') && Found(j', k) == if ms[i].key == k then None
      else Found(Object(ms), k)
  {
    hide FindKey;
    var r := RemoveAt(ms, i);
    RemovedDistinct(ms, i);
    FindKeyAbsent(r, k);
    var at := FindKey(ms, k, true);
    if at < |ms| && at != i {
      StrcmpZero(k, ms[at].key);
      var b := if at < i then at else at - 1;
      assert r[b] == ms[at];
      FindKeyExact(r, b);
    } else if at == i {
      StrcmpZero(k, ms[at].key);
    } else {
      FindKeyAbsent(ms, k);
    }
  }

  lemma RemovedDistinct(ms: seq<Member>, i: nat)
    requires Distinct(ms) && i < |ms|
    ensures Distinct(RemoveAt(ms, i))
    ensures forall a | 0 <= a < |ms| - 1 ::
        RemoveAt(ms, i)[a] == ms[if a < i then a else a + 1] && RemoveAt(ms, i)[a].key != ms[i].key
  {}

  lemma AddedFades(ms: seq<Member>, name: Text, v: Json, k: Text)
    requires Distinct(ms) && name != k
    ensures var r := AddBelow(Object(ms), name, v, true);
      Succeeds(r) && Steady(r.root) && Found(r.root, k) == Found(Object(ms), k)
  {
    hide FindKey, RemoveAt;
    var i := FindKey(ms, name, true);
    FindKeyAbsent(ms, name);
    if i < |ms| {
      StrcmpZero(name, ms[i].key);
      RemovedFades(ms, i, k);
      RemovedFades(ms, i, name);
      AppendFades(RemoveAt(ms, i), name, v, k);
    } else {
      AppendFades(ms, name, v, k);
    }
  }

  lemma AppendFades(ms: seq<Member>, name: Text, v: Json, k: Text)
    requires Distinct(ms) && name != k && Found(Object(ms), name).None?
    ensures var r := LinkMember(ms, Last, Entry(name, v));
      Succeeds(r) && Steady(r.root) && Found(r.root, k) == Found(Object(ms), k)
  {
    var r := ms + [Entry(name, v)];
    assert Append(ms, Last, Entry(name, v)) == r;
    FindKeyAbsent(ms, name);
    FindKeyAbsent(ms, k);
    FindKeyAbsent(r, k);
    var at := FindKey(ms, k, true);
    if at < |ms| {
      StrcmpZero(k, ms[at].key);
      assert r[at] == ms[at];
      FindKeyExact(r, at);
    }
  }

  lemma UpdatedFades(ms: seq<Member>, i: nat, v: Json, k: Text)
    requires Distinct(ms) && i < |ms|
    ensures var j' := Object(ms[i := ms[i].(value := v)]);
      Steady(j') && Found(j', k) == if ms[i].key == k then Some(v) else Found(Object(ms), k)
  {
    var r := ms[i := ms[i].(value := v)];
    SameNames(ms, r, k, true);
    var at := FindKey(ms, k, true);
    FindKeyExact(ms, i);
    if at < |ms| {
      StrcmpZero(k, ms[at].key);
    }
  }

  /** A patch below a member that is not there fails. */
  lemma AbsentFails(j: Json, h: Text, e: Edit)
    requires Steady(j) && Found(j, h).None? && Generated(e) && Rooted(e.path)
    ensures !Succeeds(ApplyEdit(j, e.(path := KeyPath(h) + e.path)))
  {
    hide Encode, FindToken, FindKey;
    LastSlashExists(e.path);
    LastSlashConcat(KeyPath(h), e.path);
    var k := LastSlash(e.path).value;
    var p := KeyPath(h) + e.path;
    assert p[..|KeyPath(h)| + k] == KeyPath(h) + e.path[..k];
    AbsentResolves(j, h, e.path[..k]);
  }

  lemma AbsentResolves(j: Json, h: Text, rest: Text)
    requires Steady(j) && Found(j, h).None? && AtEnd(rest)
    ensures Resolve(j, KeyPath(h) + rest, true).None?
  {
    hide Encode;
    var p := KeyPath(h) + rest;
    assert p[1..] == Encode(h) + rest;
    FindTokenIsFindKey(j.members, h, rest, true);
  }

  /** The patches for a member that stays a member of its name. */
  lemma NestedRun(j: Json, h: Text, from: Json, to: Json)
    requires Steady(j) && !Replaced(Denote(from), Denote(to))
    ensures var es, d := CreateEdits(KeyPath(h), from, to, true), CreateEdits([], from, to, true);
      && AllGenerated(es) && AllGenerated(d)
      && (Found(j, h).None? ==> (ApplyEdits(j, es) == Applied(0, j) && d == []) || !Succeeds(ApplyEdits(j, es)))
      && (Found(j, h).Some? && Succeeds(ApplyEdits(j, es)) ==>
        var c := ApplyEdits(Found(j, h).value, d);
        && Succeeds(c) && ApplyEdits(j, es).root.Object?
        && Steady(ApplyEdits(j, es).root) && Found(ApplyEdits(j, es).root, h) == Some(c.root)
        && forall k | k != h :: Found(ApplyEdits(j, es).root, k) == Found(j, k))
  {
    hide CreateEdits, ApplyEdit, FindKey, Encode, Denote;
    CreateShape([], from, to);
    CreateShape(KeyPath(h), from, to);
    CreatePrefixed(KeyPath(h), [], from, to);
    assert KeyPath(h) + [] == KeyPath(h);
    NotReplacedRooted(from, to);
    var d := CreateEdits([], from, to, true);
    var i := FindKey(j.members, h, true);
    if i == |j.members| {
      if d != [] {
        AbsentFails(j, h, d[0]);
      }
    } else {
      StrcmpZero(h, j.members[i].key);
      MemberRun(j.members, Last, i, from, to);
      var c := ApplyEdits(j.members[i].value, d);
      if Succeeds(c) {
        forall k
          ensures k != h ==> Found(Object(j.members[i := j.members[i].(value := c.root)]), k) == Found(j, k)
        {
          UpdatedFades(j.members, i, c.root, k);
        }
        UpdatedFades(j.members, i, c.root, h);
      }
    }
  }

  /** The name at the heads, and whether its member is touched as a whole. */
  function HeadName(x: seq<Member>, y: seq<Member>, diff: int): Text
    requires (diff <= 0 ==> x != []) && (diff >= 0 ==> y != [])
  {
    if diff <= 0 then x[0].key else y[0].key
  }

  ghost predicate HeadTouched(x: seq<Member>, y: seq<Member>, diff: int)
    requires (diff <= 0 ==> x != []) && (diff >= 0 ==> y != [])
  {
    diff != 0 || Replaced(Denote(x[0].value), Denote(y[0].value))
  }

  /** Patches for another name leave a member as it is, or take it away. */
  lemma HeadFades(whole: Json, j: Json, x: seq<Member>, y: seq<Member>, diff: int, k: Text)
    requires forall m | m in x :: m.value < whole && Depth(m.value) < Depth(whole)
    requires (diff <= 0 ==> x != []) && (diff >= 0 ==> y != []) && (diff == 0 ==> x[0].key == y[0].key)
    requires Steady(j)
    requires if HeadTouched(x, y, diff) then ReadBack(HeadName(x, y, diff)) != k else HeadName(x, y, diff) != k
    ensures AllGenerated(HeadEdits(whole, [], x, y, diff, true))
    ensures var r := ApplyEdits(j, HeadEdits(whole, [], x, y, diff, true));
      Succeeds(r) ==> (
        && Steady(r.root) && Fades(j, r.root, k)
        && ((HeadTouched(x, y, diff) && Fold(ReadBack(HeadName(x, y, diff))) == Fold(k)) ||
          Found(r.root, k) == Found(j, k)))
  {
    hide CreateEdits, ApplyEdits, Encode, Denote, ReadBack, Fold, ApplyEdit, FindKey, Replaced, Found;
    HeadShape(whole, [], x, y, diff);
    var h := HeadName(x, y, diff);
    assert [] + [SLASH] + Encode(h) == KeyPath(h);
    if diff < 0 {
      ApplyOne(j, Edit(REMOVE, KeyPath(h), None));
      RemoveFades(j, h, k);
    } else if diff > 0 {
      ApplyOne(j, Edit(ADD, KeyPath(h), Some(y[0].value)));
      AddFades(j, h, y[0].value, k);
    } else if HeadTouched(x, y, diff) {
      ReplacedEdits(KeyPath(h), x[0].value, y[0].value);
      ApplyOne(j, Edit(REPLACE, KeyPath(h), Some(y[0].value)));
      ReplaceFades(j, h, y[0].value, k);
    } else {
      NestedRun(j, h, x[0].value, y[0].value);
    }
  }

  ghost predicate Fades(j: Json, j': Json, k: Text) {
    Found(j', k) == Found(j, k) || Found(j', k).None?
  }

  lemma RemoveFades(j: Json, h: Text, k: Text)
    requires Steady(j)
    ensures var r := ApplyEdit(j, Edit(REMOVE, KeyPath(h), None));
      Succeeds(r) ==> (
        && Steady(r.root) && Fades(j, r.root, k)
        && (Fold(ReadBack(h)) == Fold(k) || Found(r.root, k) == Found(j, k)))
  {
    hide FindKey, ReadBack, ApplyEdit, Fold;
    RemoveActs(j.members, Last, h);
    var i := FindKey(j.members, ReadBack(h), false);
    if i < |j.members| {
      StrcmpZero(Fold(ReadBack(h)), Fold(j.members[i].key));
      RemovedFades(j.members, i, k);
    }
  }

  lemma AddFades(j: Json, h: Text, v: Json, k: Text)
    requires Steady(j) && ReadBack(h) != k
    ensures var r := ApplyEdit(j, Edit(ADD, KeyPath(h), Some(v)));
      Succeeds(r) ==> Steady(r.root) && Found(r.root, k) == Found(j, k)
  {
    hide FindKey, ReadBack, ApplyEdit, AddBelow, Fresh;
    AddActs(j.members, Last, h, v);
    AddedFades(j.members, ReadBack(h), Fresh(v), k);
  }

  lemma ReplaceFades(j: Json, h: Text, v: Json, k: Text)
    requires Steady(j) && ReadBack(h) != k
    ensures var r := ApplyEdit(j, Edit(REPLACE, KeyPath(h), Some(v)));
      Succeeds(r) ==> (
        && Steady(r.root) && Fades(j, r.root, k)
        && (Fold(ReadBack(h)) == Fold(k) || Found(r.root, k) == Found(j, k)))
  {
    hide FindKey, ReadBack, ApplyEdit, AddBelow, Fresh, Fold, RemoveAt;
    ReplaceActs(j.members, Last, h, v);
    var i := FindKey(j.members, ReadBack(h), false);
    if i < |j.members| {
      StrcmpZero(Fold(ReadBack(h)), Fold(j.members[i].key));
      RemovedFades(j.members, i, k);
      assert RemoveTail(|j.members|, Last, i) == Last;
      AddedFades(RemoveAt(j.members, i), ReadBack(h), Fresh(v), k);
    }
  }

  /** No name that is touched is read back as k. */
  ghost predicate Passes(f: map<Text, Value>, t: map<Text, Value>, k: Text) {
    forall h | h in f.Keys + t.Keys && Touched(f, t, h) :: ReadBack(h) != k
  }

  /** ... in whatever case. */
  ghost predicate Misses(f: map<Text, Value>, t: map<Text, Value>, k: Text) {
    forall h | h in f.Keys + t.Keys && Touched(f, t, h) :: Fold(ReadBack(h)) != Fold(k)
  }

  /** What the heads of two lists mean for the maps. */
  lemma HeadsOfMaps(x: seq<Member>, y: seq<Member>, k: Text)
    requires ListOk(x) && ListOk(y) && (x != [] || y != [])
    ensures var diff := Turn(x, y, true);
      var x', y' := if diff <= 0 then x[1..] else x, if diff >= 0 then y[1..] else y;
      var h := HeadName(x, y, diff);
      && ListOk(x') && ListOk(y') && (diff == 0 ==> x[0].key == y[0].key)
      && (HeadTouched(x, y, diff) <==> Touched(ToMap(x), ToMap(y), h))
      && (diff == 0 <==> h in ToMap(x) && h in ToMap(y)) && h in ToMap(x).Keys + ToMap(y).Keys
      && ToMap(x') == ToMap(x) - {h} && ToMap(y') == ToMap(y) - {h}
      && (Passes(ToMap(x), ToMap(y), k) ==> Passes(ToMap(x'), ToMap(y'), k))
      && (Misses(ToMap(x), ToMap(y), k) ==> Misses(ToMap(x'), ToMap(y'), k))
  {
    hide ToMap, ListOk, Denote, Passes, Misses, Replaced, CompareStrings, ReadBack;
    TurnKey(x, y);
    var diff := Turn(x, y, true);
    if diff <= 0 {
      TailMap(x);
    }
    if diff >= 0 {
      TailMap(y);
    }
    var h := HeadName(x, y, diff);
    assert diff < 0 ==> ToMap(y) - {h} == ToMap(y);
    assert diff > 0 ==> ToMap(x) - {h} == ToMap(x);
    SmallerMaps(ToMap(x), ToMap(y), h, k);
  }

  lemma TailMap(x: seq<Member>)
    requires x != [] && ListOk(x)
    ensures ListOk(x[1..]) && ToMap(x[1..]) == ToMap(x) - {x[0].key} && x[0].key in ToMap(x)
    ensures ToMap(x)[x[0].key] == Denote(x[0].value)
  {
    hide Denote, Unique, Sorted;
    ListTail(x);
  }

  lemma SmallerMaps(f: map<Text, Value>, t: map<Text, Value>, h: Text, k: Text)
    ensures Passes(f, t, k) ==> Passes(f - {h}, t - {h}, k)
    ensures Misses(f, t, k) ==> Misses(f - {h}, t - {h}, k)
  {
    assert forall g | g != h :: Touched(f - {h}, t - {h}, g) <==> Touched(f, t, g);
    assert forall g | g in (f - {h}).Keys + (t - {h}).Keys :: g in f.Keys + t.Keys;
  }

  /** The patches for the heads, and then those for the rest. */
  lemma WalkStep(whole: Json, j: Json, x: seq<Member>, y: seq<Member>)
    requires forall m | m in x :: m.value < whole && Depth(m.value) < Depth(whole)
    requires x != [] || y != []
    ensures var diff := Turn(x, y, true);
      var x', y' := if diff <= 0 then x[1..] else x, if diff >= 0 then y[1..] else y;
      && (forall m | m in x' :: m.value < whole && Depth(m.value) < Depth(whole))
      && AllGenerated(MemberEdits(whole, [], x, y, true)) && AllGenerated(MemberEdits(whole, [], x', y', true))
      && AllGenerated(HeadEdits(whole, [], x, y, diff, true))
      && var r := ApplyEdits(j, HeadEdits(whole, [], x, y, diff, true));
         ApplyEdits(j, MemberEdits(whole, [], x, y, true)) ==
           if Succeeds(r) then ApplyEdits(r.root, MemberEdits(whole, [], x', y', true)) else r
  {
    hide HeadEdits, MemberEdits, CompareStrings, ApplyEdits, AllGenerated;
    var diff := Turn(x, y, true);
    var x', y' := if diff <= 0 then x[1..] else x, if diff >= 0 then y[1..] else y;
    MemberEditsUnfold(whole, [], x, y, true);
    MemberShape(whole, [], x, y);
    HeadShape(whole, [], x, y, diff);
    MemberShape(whole, [], x', y');
    ApplyConcat(j, HeadEdits(whole, [], x, y, diff, true), MemberEdits(whole, [], x', y', true));
  }

  lemma WalkEnd(whole: Json, j: Json)
    ensures AllGenerated(MemberEdits(whole, [], [], [], true))
    ensures ApplyEdits(j, MemberEdits(whole, [], [], [], true)) == Applied(0, j)
  {}

  /** The patches for an object, where none of them is meant for the value of k. */
  lemma {:induction false} WalkFades(whole: Json, j: Json, x: seq<Member>, y: seq<Member>, k: Text)
    requires forall m | m in x :: m.value < whole && Depth(m.value) < Depth(whole)
    requires Steady(j) && ListOk(x) && ListOk(y) && Passes(ToMap(x), ToMap(y), k)
    requires (k !in ToMap(x) && k !in ToMap(y)) || Touched(ToMap(x), ToMap(y), k)
    ensures AllGenerated(MemberEdits(whole, [], x, y, true))
    ensures var r := ApplyEdits(j, MemberEdits(whole, [], x, y, true));
      Succeeds(r) ==>
        Steady(r.root) && Fades(j, r.root, k) && (Misses(ToMap(x), ToMap(y), k) ==> Found(r.root, k) == Found(j, k))
    decreases |x| + |y|
  {
    hide HeadEdits, MemberEdits, ListOk, ToMap, Denote, Steady, Found, Passes, Misses, CompareStrings, HeadTouched,
      ApplyEdits, ReadBack, AllGenerated, Touched, Fold, Fades, HeadName, UniqueMembers;
    if x == [] && y == [] {
      WalkEnd(whole, j);
      FadesThen(j, j, Fault, k);
    } else {
      var diff := Turn(x, y, true);
      var x', y' := if diff <= 0 then x[1..] else x, if diff >= 0 then y[1..] else y;
      var h := HeadName(x, y, diff);
      WalkStep(whole, j, x, y);
      HeadsOfMaps(x, y, k);
      PassesOne(ToMap(x), ToMap(y), h, k);
      NotNested(x, y, k);
      HeadFades(whole, j, x, y, diff, k);
      var r := ApplyEdits(j, HeadEdits(whole, [], x, y, diff, true));
      if Succeeds(r) {
        WalkFades(whole, r.root, x', y', k);
        FadesThen(j, r.root, ApplyEdits(r.root, MemberEdits(whole, [], x', y', true)), k);
      }
    }
  }

  lemma FadesThen(j: Json, j': Json, r: Applied, k: Text)
    ensures Fades(j, j, k)
    ensures Succeeds(r) && Fades(j, j', k) && Fades(j', r.root, k) ==> Fades(j, r.root, k)
  {}

  /** Where k is touched or absent it is not the name of a value that is patched in place, now or later. */
  lemma NotNested(x: seq<Member>, y: seq<Member>, k: Text)
    requires ListOk(x) && ListOk(y) && (x != [] || y != [])
    requires (k !in ToMap(x) && k !in ToMap(y)) || Touched(ToMap(x), ToMap(y), k)
    ensures var diff := Turn(x, y, true);
      var x', y' := if diff <= 0 then x[1..] else x, if diff >= 0 then y[1..] else y;
      && (HeadTouched(x, y, diff) || HeadName(x, y, diff) != k)
      && ((k !in ToMap(x') && k !in ToMap(y')) || Touched(ToMap(x'), ToMap(y'), k))
  {
    hide ListOk, ToMap, Denote, CompareStrings, HeadTouched, Replaced;
    HeadsOfMaps(x, y, k);
  }

  lemma PassesOne(f: map<Text, Value>, t: map<Text, Value>, h: Text, k: Text)
    requires h in f.Keys + t.Keys
    ensures Passes(f, t, k) && Touched(f, t, h) ==> ReadBack(h) != k
    ensures Misses(f, t, k) && Touched(f, t, h) ==> Fold(ReadBack(h)) != Fold(k)
  {}

  // ----- names that do not survive

  lemma {:induction false} LeastRight(names: set<Text>) returns (k: Text)
    requires names != {}
    ensures k in names && forall h | h in names :: RightBytes(k) <= RightBytes(h)
    decreases |names|
  {
    var h :| h in names;
    if names == {h} {
      k := h;
    } else {
      var rest := names - {h};
      assert names == rest + {h};
      var l := LeastRight(rest);
      k := if RightBytes(h) < RightBytes(l) then h else l;
    }
  }

  /** Of the touched names that do not survive, the one read back worst is hit by no patch at all. */
  lemma BadNameMissed(f: map<Text, Value>, t: map<Text, Value>, bad: set<Text>) returns (k: Text)
    requires bad == set h | h in f.Keys + t.Keys && Touched(f, t, h) && !Survives(h)
    requires bad != {}
    ensures k in bad && Misses(f, t, k) && Passes(f, t, k)
  {
    k := LeastRight(bad);
    forall h | h in f.Keys + t.Keys && Touched(f, t, h)
      ensures Fold(ReadBack(h)) != Fold(k)
    {
      if Survives(h) {
        DecodeUndoesEncodeHere(h);
        SurvivesFold(h);
        SurvivesFold(k);
      } else {
        assert h in bad;
        ReadBackAdvances(h);
        if Fold(ReadBack(h)) == Fold(k) {
          RightBytesFold(ReadBack(h), k);
        }
      }
    }
  }

  /** So the round trip of two objects succeeds only if all touched names survive. */
  lemma BadNameFails(whole: Json, ms: seq<Member>, x: seq<Member>, y: seq<Member>)
    requires forall m | m in x :: m.value < whole && Depth(m.value) < Depth(whole)
    requires UniqueMembers(ms) && ListOk(x) && ListOk(y) && ToMap(ms) == ToMap(x)
    ensures AllGenerated(MemberEdits(whole, [], x, y, true))
    ensures Leaves(ApplyEdits(Object(ms), MemberEdits(whole, [], x, y, true)), ToMap(y)) ==>
      forall k | k in ToMap(x).Keys + ToMap(y).Keys && Touched(ToMap(x), ToMap(y), k) :: Survives(k)
  {
    hide MemberEdits, ListOk, ToMap, Denote, Unique, Survives, ApplyEdits, Misses, Passes, FindKey;
    MemberShape(whole, [], x, y);
    var f, t := ToMap(x), ToMap(y);
    var bad := set h | h in f.Keys + t.Keys && Touched(f, t, h) && !Survives(h);
    if bad != {} {
      var k := BadNameMissed(f, t, bad);
      DistinctNames(ms);
      WalkFades(whole, Object(ms), x, y, k);
      var r := ApplyEdits(Object(ms), MemberEdits(whole, [], x, y, true));
      if Leaves(r, t) {
        LeftMembers(r.root, t);
        DistinctNames(r.root.members);
        LookupMap(ms, k);
        LookupMap(r.root.members, k);
      }
    }
    assert forall h | h in f.Keys + t.Keys && Touched(f, t, h) && !Survives(h) :: h in bad;
  }

  lemma LeftMembers(root: Json, m: map<Text, Value>)
    requires Unique(root) && Denote(root) == VObject(m)
    ensures root.Object? && UniqueMembers(root.members) && ToMap(root.members) == m
  {}

  // ----- the patches for one member's value

  /** If the object has a member k in the end, it is the one k had at first, as its own patches leave it. */
  lemma {:induction false} WalkChild(whole: Json, j: Json, x: seq<Member>, y: seq<Member>, a: nat, b: nat)
    requires forall m | m in x :: m.value < whole && Depth(m.value) < Depth(whole)
    requires Steady(j) && ListOk(x) && ListOk(y) && a < |x| && b < |y| && x[a].key == y[b].key
    requires Passes(ToMap(x), ToMap(y), x[a].key) && !Replaced(Denote(x[a].value), Denote(y[b].value))
    ensures AllGenerated(MemberEdits(whole, [], x, y, true))
    ensures AllGenerated(CreateEdits([], x[a].value, y[b].value, true))
    ensures var k, r := x[a].key, ApplyEdits(j, MemberEdits(whole, [], x, y, true));
      Succeeds(r) && Found(r.root, k).Some? ==>
        Found(j, k).Some? &&
          ApplyEdits(Found(j, k).value, CreateEdits([], x[a].value, y[b].value, true)) ==
          Applied(0, Found(r.root, k).value)
    decreases |x| + |y|
  {
    hide HeadEdits, MemberEdits, ListOk, ToMap, Denote, Steady, Found, Passes, Misses, CompareStrings, HeadTouched,
      ApplyEdit, ReadBack, CreateEdits, Replaced, Fades, Touched;
    hide ApplyEdits, AllGenerated, Fold, UniqueMembers;
    var k := x[a].key;
    CreateShape([], x[a].value, y[b].value);
    var diff := Turn(x, y, true);
    var x', y' := if diff <= 0 then x[1..] else x, if diff >= 0 then y[1..] else y;
    var h := HeadName(x, y, diff);
    WalkStep(whole, j, x, y);
    HeadsOfMaps(x, y, k);
    PlaceOfHead(x, y, a, b);
    var r := ApplyEdits(j, HeadEdits(whole, [], x, y, diff, true));
    if h != k {
      PassesOne(ToMap(x), ToMap(y), h, k);
      HeadFades(whole, j, x, y, diff, k);
      if Succeeds(r) {
        FadesNone(j, r.root, k);
        var a', b' := if diff <= 0 then a - 1 else a, if diff >= 0 then b - 1 else b;
        assert x'[a'] == x[a] && y'[b'] == y[b];
        WalkChild(whole, r.root, x', y', a', b');
      }
    } else {
      NestedHead(whole, x, y);
      NestedRun(j, k, x[0].value, y[0].value);
      if Succeeds(r) {
        GoneFrom(x, y, k);
        WalkFades(whole, r.root, x', y', k);
        var end := ApplyEdits(j, MemberEdits(whole, [], x, y, true));
        if Succeeds(end) {
          FadesNone(r.root, end.root, k);
          NoEdits(j, k, x[0].value, y[0].value);
        }
      }
    }
  }

  lemma NoEdits(j: Json, k: Text, from: Json, to: Json)
    ensures CreateEdits([], from, to, true) == [] ==> forall c :: ApplyEdits(c, []) == Applied(0, c)
  {}

  lemma FadesNone(j: Json, j': Json, k: Text)
    ensures Fades(j, j', k) && Found(j', k).Some? ==> Found(j', k) == Found(j, k)
  {}

  /** Where the two members of a name are, seen from the heads. */
  lemma PlaceOfHead(x: seq<Member>, y: seq<Member>, a: nat, b: nat)
    requires ListOk(x) && ListOk(y) && a < |x| && b < |y| && x[a].key == y[b].key
    ensures var diff := Turn(x, y, true);
      if HeadName(x, y, diff) == x[a].key then diff == 0 && a == 0 && b == 0
      else (diff <= 0 ==> a > 0) && (diff >= 0 ==> b > 0)
  {
    hide Denote, Unique, Sorted;
    TurnKey(x, y);
    DistinctNames(x);
    DistinctNames(y);
    MapOf(x);
    MapOf(y);
  }

  lemma NestedHead(whole: Json, x: seq<Member>, y: seq<Member>)
    requires x != [] && y != [] && forall m | m in x :: m.value < whole
    ensures HeadEdits(whole, [], x, y, 0, true) == CreateEdits(KeyPath(x[0].key), x[0].value, y[0].value, true)
  {
    assert [] + [SLASH] + Encode(x[0].key) == KeyPath(x[0].key);
  }

  lemma GoneFrom(x: seq<Member>, y: seq<Member>, k: Text)
    requires ListOk(x) && ListOk(y) && x != [] && y != [] && x[0].key == y[0].key == k
    ensures k !in ToMap(x[1..]) && k !in ToMap(y[1..])
  {
    ListTail(x);
    ListTail(y);
  }
}
