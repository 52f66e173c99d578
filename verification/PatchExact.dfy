/** Exactly when generated patches lead from a copy of one tree to another. */
module PatchExact {
  import opened Basics
  import opened Strings
  import opened Sorting
  import opened Tails
  import opened Json
  import opened CompareProofs
  import opened Folding
  import opened Pointer
  import opened PointerDecoding
  import opened Readback
  import opened Patch
  import opened PatchFrames
  import opened PatchShapes
  import opened PatchMembers
  import opened PatchRoundTrip
  import opened PatchConverse

  // ----- arrays

  /** The patches for the elements from place n on, if they succeed, leave each element as its own patches leave it. */
  lemma {:induction false} ItemsRun(all: seq<Json>, n: nat, s: seq<Json>, t: seq<Json>)
    requires |all| == n + |s| && (s != [] ==> |all| <= SIZE_RANGE)
    ensures AllGenerated(ItemEdits([], s, t, n, true))
    ensures forall i | 0 <= i < |s| && i < |t| :: AllGenerated(CreateEdits([], s[i], t[i], true))
    ensures var r := ApplyEdits(Array(all), ItemEdits([], s, t, n, true));
      Succeeds(r) ==> (
        && r.root.Array? && |r.root.items| == n + |t| && r.root.items[..n] == all[..n]
        && forall i | 0 <= i < |s| && i < |t| ::
          ApplyEdits(all[n+i], CreateEdits([], s[i], t[i], true)) == Applied(0, r.root.items[n+i]))
    decreases |s| + |t|
  {
    hide ItemEdits, ApplyEdits, AllGenerated, CreateEdits, Digits, Fresh;
    ItemShape([], s, t, n);
    forall i | 0 <= i < |s| && i < |t|
      ensures AllGenerated(CreateEdits([], s[i], t[i], true))
    {
      CreateShape([], s[i], t[i]);
    }
    if s != [] && t != [] {
      var c := ItemRun(all, n, s[0], t[0]);
      ZipUnfold(all, n, s, t);
      var r := ApplyEdits(Array(all), ItemEdits([], s, t, n, true));
      if Succeeds(r) {
        var all' := all[n := c];
        ItemsRun(all', n + 1, s[1..], t[1..]);
        var items := r.root.items;
        assert items[..n] == items[..n+1][..n] == all'[..n+1][..n] == all[..n];
        assert items[n] == items[..n+1][n] == all'[..n+1][n] == c;
        forall i | 0 <= i < |s| && i < |t|
          ensures ApplyEdits(all[n+i], CreateEdits([], s[i], t[i], true)) == Applied(0, items[n+i])
        {
          if i > 0 {
            assert s[1..][i-1] == s[i] && t[1..][i-1] == t[i] && all'[n + 1 + (i-1)] == all[n+i];
          }
        }
      }
    } else if s != [] {
      CutStep(all, n, s);
      ItemsRun(RemoveAt(all, n), n, s[1..], []);
      assert RemoveAt(all, n)[..n] == all[..n];
    } else if t != [] {
      GrowStep(all, n, t);
      ItemShape([], [], t[1..], n + 1);
      GrownRun(all, t);
    } else {
      NothingToDo(all, [], n);
      assert all + [] == all;
    }
  }

  lemma {:induction false} GrownRun(all: seq<Json>, t: seq<Json>)
    ensures AllGenerated(ItemEdits([], [], t, |all|, true))
    ensures var r := ApplyEdits(Array(all), ItemEdits([], [], t, |all|, true));
      Succeeds(r) && r.root.Array? && |r.root.items| == |all| + |t| && r.root.items[..|all|] == all
    decreases |t|
  {
    hide ItemEdits, ApplyEdits, AllGenerated, Fresh;
    ItemShape([], [], t, |all|);
    if t == [] {
      NothingToDo(all, [], |all|);
      assert all + [] == all;
    } else {
      GrowStep(all, |all|, t);
      var more := all + [Fresh(t[0])];
      GrownRun(more, t[1..]);
      var items := ApplyEdits(Array(more), ItemEdits([], [], t[1..], |more|, true)).root.items;
      assert items[..|all|] == items[..|more|][..|all|] == all;
    }
  }

  lemma ZipUnfold(all: seq<Json>, n: nat, s: seq<Json>, t: seq<Json>)
    requires s != [] && t != []
    ensures AllGenerated(ItemEdits([], s, t, n, true))
    ensures AllGenerated(CreateEdits([SLASH] + Digits(n), s[0], t[0], true))
    ensures AllGenerated(ItemEdits([], s[1..], t[1..], n + 1, true))
    ensures var r := ApplyEdits(Array(all), CreateEdits([SLASH] + Digits(n), s[0], t[0], true));
      ApplyEdits(Array(all), ItemEdits([], s, t, n, true)) ==
        if Succeeds(r) then ApplyEdits(r.root, ItemEdits([], s[1..], t[1..], n + 1, true)) else r
    ensures |CreateEdits([], s[0], t[0], true)| +
      |ItemEdits([], s[1..], t[1..], n + 1, true)| == |ItemEdits([], s, t, n, true)|
  {
    hide CreateEdits, Digits, ApplyEdits, AllGenerated;
    ItemShape([], s, t, n);
    ItemShape([], s[1..], t[1..], n + 1);
    CreateShape([SLASH] + Digits(n), s[0], t[0]);
    CreatePrefixed([SLASH] + Digits(n), [], s[0], t[0]);
    assert [SLASH] + Digits(n) + [] == [SLASH] + Digits(n);
    assert [] + [SLASH] + Digits(n) == [SLASH] + Digits(n);
    ApplyConcat(Array(all), CreateEdits([SLASH] + Digits(n), s[0], t[0], true),
      ItemEdits([], s[1..], t[1..], n + 1, true));
  }

  lemma {:induction false} FewerPerItem(s: seq<Json>, t: seq<Json>, n: nat, i: nat)
    requires i < |s| && i < |t|
    ensures |CreateEdits([], s[i], t[i], true)| <= |ItemEdits([], s, t, n, true)|
    decreases i
  {
    hide CreateEdits, ItemEdits;
    ZipUnfold([], n, s, t);
    if i > 0 {
      FewerPerItem(s[1..], t[1..], n + 1, i - 1);
    }
  }

  // ----- the names that have to survive

  /** Every element reached its goal. */
  lemma ItemsReached(c: seq<Json>, s: seq<Json>, t: seq<Json>, i: nat)
    requires |c| == |s| && |c| <= SIZE_RANGE && i < |s| && i < |t|
    ensures AllGenerated(ItemEdits([], s, t, 0, true)) && AllGenerated(CreateEdits([], s[i], t[i], true))
    ensures Reaches(ApplyEdits(Array(c), ItemEdits([], s, t, 0, true)), Array(t)) ==>
      Reaches(ApplyEdits(c[i], CreateEdits([], s[i], t[i], true)), t[i])
  {
    hide CreateEdits, ItemEdits, ApplyEdits, AllGenerated;
    ItemsRun(c, 0, s, t);
    var r := ApplyEdits(Array(c), ItemEdits([], s, t, 0, true));
    if Reaches(r, Array(t)) {
      ArrayParts(r.root.items, t);
    }
  }

  lemma ObjectEdits(from: Json, to: Json)
    requires from.Object? && to.Object?
    ensures var x, y := MergeSort(from.members, true), MergeSort(to.members, true);
      && (forall m | m in x :: m.value < from && Depth(m.value) < Depth(from))
      && CreateEdits([], from, to, true) == MemberEdits(from, [], x, y, true)
  {
    hide MemberEdits, MergeSort;
    var x := MergeSort(from.members, true);
    SortPermutes(from.members, true);
    forall m | m in x
      ensures m.value < from && Depth(m.value) < Depth(from)
    {
      SameElements(from.members, x, m);
    }
  }

  lemma MemberAt(ms: seq<Member>, k: Text) returns (i: nat)
    requires UniqueMembers(ms) && k in ToMap(ms)
    ensures i < |ms| && ms[i].key == k && ToMap(ms)[k] == Denote(ms[i].value)
  {
    hide ToMap, Denote;
    MapOf(ms);
    i :| 0 <= i < |ms| && ms[i].key == k;
  }

  /** The value of a member that keeps its name reached its goal. */
  lemma MemberReached(whole: Json, ms: seq<Member>, x: seq<Member>, y: seq<Member>, c: nat, a: nat, b: nat)
    requires forall m | m in x :: m.value < whole && Depth(m.value) < Depth(whole)
    requires UniqueMembers(ms) && ListOk(x) && ListOk(y)
    requires forall k | k in ToMap(x).Keys + ToMap(y).Keys && Touched(ToMap(x), ToMap(y), k) :: Survives(k)
    requires c < |ms| && a < |x| && b < |y| && ms[c].key == x[a].key == y[b].key
    requires !Replaced(Denote(x[a].value), Denote(y[b].value))
    ensures AllGenerated(MemberEdits(whole, [], x, y, true))
    ensures AllGenerated(CreateEdits([], x[a].value, y[b].value, true))
    ensures Leaves(ApplyEdits(Object(ms), MemberEdits(whole, [], x, y, true)), ToMap(y)) ==>
      Reaches(ApplyEdits(ms[c].value, CreateEdits([], x[a].value, y[b].value, true)), y[b].value)
  {
    hide MemberEdits, CreateEdits, ApplyEdits, ToMap, Denote, Unique, Survives, FindKey, ReadBack, Replaced, Sorted;
    var k := x[a].key;
    DistinctNames(x);
    DistinctNames(y);
    MapOf(x);
    MapOf(y);
    forall h | h in ToMap(x).Keys + ToMap(y).Keys && Touched(ToMap(x), ToMap(y), h)
      ensures ReadBack(h) != k
    {
      DecodeUndoesEncodeHere(h);
    }
    DistinctNames(ms);
    WalkChild(whole, Object(ms), x, y, a, b);
    FindKeyExact(ms, c);
    var r := ApplyEdits(Object(ms), MemberEdits(whole, [], x, y, true));
    if Leaves(r, ToMap(y)) {
      LeftMembers(r.root, ToMap(y));
      DistinctNames(r.root.members);
      LookupMap(r.root.members, k);
      UniqueFound(r.root, k);
    }
  }

  lemma UniqueFound(j: Json, k: Text)
    requires j.Object? && UniqueMembers(j.members) && Found(j, k).Some?
    ensures Unique(Found(j, k).value)
  {}

  /** Whatever the copy: the round trip succeeds only if all names that are touched, at any depth, survive. */
  lemma {:induction false} ReachedNamesSurvive(cur: Json, from: Json, to: Json)
    requires Ready(cur) && Unique(from) && Unique(to) && Denote(cur) == Denote(from)
    ensures AllGenerated(CreateEdits([], from, to, true))
    ensures Reaches(ApplyEdits(cur, CreateEdits([], from, to, true)), to) ==> NamesSurvive(Denote(from), Denote(to))
    decreases Depth(from)
  {
    hide CreateEdits, ItemEdits, MemberEdits, ApplyEdits, MergeSort, AllGenerated;
    CreateShape([], from, to);
    if Reaches(ApplyEdits(cur, CreateEdits([], from, to, true)), to) {
      if from.Array? && to.Array? {
        ArrayEdits(from, to);
        ArrayParts(cur.items, from.items);
        var f, t := Denote(from).items, Denote(to).items;
        forall i | 0 <= i < |f| && i < |t|
          ensures NamesSurvive(f[i], t[i])
        {
          ItemsReached(cur.items, from.items, to.items, i);
          ReachedNamesSurvive(cur.items[i], from.items[i], to.items[i]);
        }
      } else if from.Object? && to.Object? {
        ObjectNames(cur, from, to);
      }
    }
  }

  lemma ArrayEdits(from: Json, to: Json)
    requires from.Array? && to.Array?
    ensures CreateEdits([], from, to, true) == ItemEdits([], from.items, to.items, 0, true)
  {}

  lemma {:induction false} ObjectNames(cur: Json, from: Json, to: Json)
    requires from.Object? && to.Object?
    requires Ready(cur) && Unique(from) && Unique(to) && Denote(cur) == Denote(from)
    requires AllGenerated(CreateEdits([], from, to, true))
    requires Reaches(ApplyEdits(cur, CreateEdits([], from, to, true)), to)
    ensures NamesSurvive(Denote(from), Denote(to))
    decreases Depth(from), 0
  {
    hide CreateEdits, MemberEdits, ApplyEdits, MergeSort, AllGenerated, ToMap, Survives, Replaced, Ready;
    var x, y := MergeSort(from.members, true), MergeSort(to.members, true);
    ObjectEdits(from, to);
    ReadyParts(cur, from);
    var ms := cur.members;
    ListOkSorted(from.members);
    ListOkSorted(to.members);
    BadNameFails(from, ms, x, y);
    var f, t := ToMap(x), ToMap(y);
    forall k | k in f && k in t && !Replaced(f[k], t[k])
      ensures NamesSurvive(f[k], t[k])
    {
      ListOkUnique(x);
      ListOkUnique(y);
      var c := MemberAt(ms, k);
      var a := MemberAt(x, k);
      var b := MemberAt(y, k);
      MemberReached(from, ms, x, y, c, a, b);
      assert x[a] in x;
      ReachedNamesSurvive(ms[c].value, x[a].value, y[b].value);
    }
  }

  lemma ReadyParts(cur: Json, from: Json)
    requires Ready(cur) && from.Object? && Denote(cur) == Denote(from)
    ensures cur == Object(cur.members) && UniqueMembers(cur.members) && ToMap(cur.members) == ToMap(from.members)
    ensures forall i | 0 <= i < |cur.members| :: Ready(cur.members[i].value)
  {}

  // ----- copies in which no two names are the same up to case

  /** Where a name of one side is alike to one of the other, it is the same, or the mode minds case. */
  ghost predicate Agree(f: Value, t: Value, caseSensitive: bool)
    decreases f
  {
    match (f, t)
    case (VArray(s), VArray(u)) => forall i | 0 <= i < |s| && i < |u| :: Agree(s[i], u[i], caseSensitive)
    case (VObject(s), VObject(u)) =>
      && ToldApart(s.Keys + u.Keys, caseSensitive)
      && forall k | k in s && k in u :: Agree(s[k], u[k], caseSensitive)
    case _ => true
  }

  lemma {:induction false} AlwaysAgree(f: Value, t: Value)
    ensures Agree(f, t, true)
    decreases f
  {
    match (f, t)
    case (VArray(s), VArray(u)) =>
      forall i | 0 <= i < |s| && i < |u|
        ensures Agree(s[i], u[i], true)
      {
        AlwaysAgree(s[i], u[i]);
      }
    case (VObject(s), VObject(u)) =>
      forall k | k in s && k in u
        ensures Agree(s[k], u[k], true)
      {
        AlwaysAgree(s[k], u[k]);
      }
    case _ =>
  }

  lemma {:induction false} SurvivingFits(c: Json, t: Value, caseSensitive: bool)
    requires UniqueIn(c, false) && Agree(Denote(c), t, caseSensitive) && NamesSurvive(Denote(c), t)
    ensures Fits(c, t, caseSensitive)
  {
    match (c, t)
    case (Array(items), VArray(goal)) =>
      forall i | 0 <= i < |items| && i < |goal|
        ensures Fits(items[i], goal[i], caseSensitive)
      {
        assert Denote(c).items[i] == Denote(items[i]);
        SurvivingFits(items[i], goal[i], caseSensitive);
      }
    case (Object(ms, tail), VObject(goal)) =>
      hide ToMap, Survives, Leads, Replaced, UniqueIn, Agree, NamesSurvive, Denote, Apart;
      MembersSurvive(ms, tail, goal, caseSensitive);
      forall i | 0 <= i < |ms| && ms[i].key in goal && !Replaced(Denote(ms[i].value), goal[ms[i].key])
        ensures Fits(ms[i].value, goal[ms[i].key], caseSensitive)
      {
        SurvivingFits(ms[i].value, goal[ms[i].key], caseSensitive);
      }
    case _ =>
  }

  /** The conditions, member by member. */
  lemma MembersSurvive(ms: seq<Member>, tail: Tail, goal: map<Text, Value>, caseSensitive: bool)
    requires UniqueIn(Object(ms, tail), false)
    requires Agree(Denote(Object(ms, tail)), VObject(goal), caseSensitive)
    requires NamesSurvive(Denote(Object(ms, tail)), VObject(goal))
    ensures Apart(ms, goal, caseSensitive)
    ensures forall i | 0 <= i < |ms| ::
      if ms[i].key in goal && !Replaced(Denote(ms[i].value), goal[ms[i].key]) then
        UniqueIn(ms[i].value, false) && Agree(Denote(ms[i].value), goal[ms[i].key], caseSensitive) &&
          NamesSurvive(Denote(ms[i].value), goal[ms[i].key])
      else Survives(ms[i].key) && Leads(ms, ms[i].key)
    ensures forall k | k in goal && k !in ToMap(ms) :: Survives(k)
  {
    hide ToMap, Survives, Replaced, Leads;
    ObjectMeans(Object(ms, tail));
    MapOf(ms);
    ApartLeads(ms);
    forall k | k in ToMap(ms).Keys + goal.Keys && Touched(ToMap(ms), goal, k)
      ensures Survives(k)
    {}
  }

  lemma ApartLeads(ms: seq<Member>)
    requires Distinct(ms) && ToldApart(ToMap(ms).Keys, false)
    ensures forall k :: Leads(ms, k)
  {
    hide ToMap;
    MapOf(ms);
  }

  /**
   RFC 6902, section 4, for a copy in which no object has two names that differ only in
   case: the round trip succeeds if and only if every name that is removed, added or
   replaced survives being written as the last token of a pointer and read back.
   */
  lemma RoundTripExactly(copy: Json, from: Json, to: Json)
    requires Ready(copy) && UniqueIn(copy, false) && Unique(from) && Unique(to) && Denote(copy) == Denote(from)
    ensures Reaches(ApplyPatches(copy, GeneratePatches(from, to, true), true), to) <==>
      NamesSurvive(Denote(from), Denote(to))
  {
    hide CreateEdits, ApplyEdits, ApplyAll, Reaches, Ready, NamesSurvive, UniqueIn, Unique, Denote, Agree, ComposeAll,
      Fits;
    ReachedNamesSurvive(copy, from, to);
    ComposeAllApplies(copy, CreateEdits([], from, to, true));
    if NamesSurvive(Denote(from), Denote(to)) {
      assert Unique(copy) by { ReadyUnique(copy); }
      AlwaysAgree(Denote(copy), Denote(to));
      SurvivingFits(copy, Denote(to), true);
      RoundTrip(copy, from, to);
    }
  }

  lemma ReadyUnique(j: Json)
    requires Ready(j)
    ensures Unique(j)
  {}

  // ----- a single patch

  /** The patch for a name that is touched. */
  ghost function PatchFor(x: seq<Member>, y: seq<Member>, k: Text): Edit
    requires k in ToMap(x) || k in ToMap(y)
    requires UniqueMembers(y)
  {
    if k !in ToMap(y) then Edit(REMOVE, KeyPath(k), None)
    else
      LookupMap(y, k);
      Edit(if k in ToMap(x) then REPLACE else ADD, KeyPath(k), Some(y[FindKey(y, k, true)].value))
  }

  /** It is among the patches. */
  lemma {:induction false} PatchListed(whole: Json, x: seq<Member>, y: seq<Member>, k: Text)
    requires forall m | m in x :: m.value < whole && Depth(m.value) < Depth(whole)
    requires ListOk(x) && ListOk(y) && k in ToMap(x).Keys + ToMap(y).Keys && Touched(ToMap(x), ToMap(y), k)
    ensures PatchFor(x, y, k) in MemberEdits(whole, [], x, y, true)
    decreases |x| + |y|
  {
    hide MemberEdits, HeadEdits, ToMap, Denote, CompareStrings, Sorted, Unique, FindKey, CreateEdits, Replaced;
    MemberEditsUnfold(whole, [], x, y, true);
    if x == [] && y == [] {
      EmptyMaps();
    } else {
      var diff := Turn(x, y, true);
      var x', y' := if diff <= 0 then x[1..] else x, if diff >= 0 then y[1..] else y;
      HeadsOfMaps(x, y, k);
      if HeadName(x, y, diff) == k {
        PatchAtHead(whole, x, y, k);
      } else {
        SamePatch(x, y, x', y', HeadName(x, y, diff), k);
        PatchListed(whole, x', y', k);
      }
    }
  }

  lemma PatchAtHead(whole: Json, x: seq<Member>, y: seq<Member>, k: Text)
    requires forall m | m in x :: m.value < whole
    requires ListOk(x) && ListOk(y) && (x != [] || y != []) && HeadName(x, y, Turn(x, y, true)) == k
    requires k in ToMap(x).Keys + ToMap(y).Keys && Touched(ToMap(x), ToMap(y), k)
    ensures HeadEdits(whole, [], x, y, Turn(x, y, true), true) == [PatchFor(x, y, k)]
  {
    hide ToMap, Denote, CompareStrings, Sorted, Unique, CreateEdits, Replaced, FindKey;
    var diff := Turn(x, y, true);
    HeadsOfMaps(x, y, k);
    TurnKey(x, y);
    assert [] + [SLASH] + Encode(k) == KeyPath(k);
    if diff >= 0 {
      DistinctNames(y);
      FindKeyExact(y, 0);
    }
    if diff == 0 {
      ReplacedEdits(KeyPath(k), x[0].value, y[0].value);
      HeadValues(x, y);
    }
  }

  lemma HeadValues(x: seq<Member>, y: seq<Member>)
    requires x != [] && y != []
    ensures ToMap(x)[x[0].key] == Denote(x[0].value) && ToMap(y)[y[0].key] == Denote(y[0].value)
  {}

  lemma SamePatch(x: seq<Member>, y: seq<Member>, x': seq<Member>, y': seq<Member>, h: Text, k: Text)
    requires ListOk(x) && ListOk(y) && ListOk(x') && ListOk(y') && h != k && k in ToMap(x).Keys + ToMap(y).Keys
    requires ToMap(x') == ToMap(x) - {h} && ToMap(y') == ToMap(y) - {h}
    requires y' == y || (y != [] && y' == y[1..] && y[0].key == h)
    ensures k in ToMap(x').Keys + ToMap(y').Keys
    ensures (Touched(ToMap(x'), ToMap(y'), k) <==> Touched(ToMap(x), ToMap(y), k))
    ensures PatchFor(x', y', k) == PatchFor(x, y, k)
  {
    hide ToMap, Denote, Sorted, Unique, Replaced;
    if k in ToMap(y) {
      LookupMap(y, k);
      LookupMap(y', k);
      StrcmpZero(k, h);
    }
  }

  /** Where there is at most one patch, a touched name is the only one, and its patch is the list. */
  lemma OnlyPatch(whole: Json, x: seq<Member>, y: seq<Member>, k: Text)
    requires forall m | m in x :: m.value < whole && Depth(m.value) < Depth(whole)
    requires ListOk(x) && ListOk(y) && k in ToMap(x).Keys + ToMap(y).Keys && Touched(ToMap(x), ToMap(y), k)
    requires |MemberEdits(whole, [], x, y, true)| <= 1
    ensures MemberEdits(whole, [], x, y, true) == [PatchFor(x, y, k)]
    ensures forall h | h in ToMap(x) && h !in ToMap(y) :: h == k
  {
    hide MemberEdits, ToMap, Denote, ListOk, PatchFor, UniqueMembers;
    ListOkUnique(y);
    PatchListed(whole, x, y, k);
    var es := MemberEdits(whole, [], x, y, true);
    forall h | h in ToMap(x) && h !in ToMap(y)
      ensures h == k
    {
      PatchListed(whole, x, y, h);
      assert es[0] == PatchFor(x, y, h) == PatchFor(x, y, k);
      PatchNames(x, y, h, k);
    }
  }

  lemma PatchNames(x: seq<Member>, y: seq<Member>, h: Text, k: Text)
    requires ListOk(y) && h in ToMap(x) && h !in ToMap(y) && (k in ToMap(x) || k in ToMap(y))
    ensures PatchFor(x, y, h) == PatchFor(x, y, k) ==> h == k
  {
    hide ToMap, Denote, Encode;
    if PatchFor(x, y, h) == PatchFor(x, y, k) {
      assert ADD != REMOVE && REPLACE != REMOVE by {
        assert |ADD| == 3 && |REMOVE| == 6 && |REPLACE| == 7;
      }
      assert KeyPath(h)[1..] == Encode(h) && KeyPath(k)[1..] == Encode(k);
      EncodeInjective(h, k);
    }
  }

  lemma {:induction false} EncodeInjective(a: Text, b: Text)
    requires Encode(a) == Encode(b)
    ensures a == b
  {
    if a == [] || b == [] {
      EncodeIsLonger(a);
      EncodeIsLonger(b);
    } else {
      SameFirstByte(a[0], Encode(a[1..]), b[0], Encode(b[1..]));
      EncodeInjective(a[1..], b[1..]);
      assert a == [a[0]] + a[1..] && b == [b[0]] + b[1..];
    }
  }

  lemma SameFirstByte(c: Byte, s: Text, d: Byte, t: Text)
    requires EncodeByte(c) + s == EncodeByte(d) + t
    ensures c == d && s == t
  {
    var x, y := EncodeByte(c) + s, EncodeByte(d) + t;
    assert x[0] == y[0];
    if x[0] == TILDE {
      assert x[1] == y[1];
    }
    assert s == x[|EncodeByte(c)|..] && t == y[|EncodeByte(d)|..];
  }

  lemma {:induction false} FewerPerMember(whole: Json, x: seq<Member>, y: seq<Member>, a: nat, b: nat)
    requires forall m | m in x :: m.value < whole && Depth(m.value) < Depth(whole)
    requires ListOk(x) && ListOk(y) && a < |x| && b < |y| && x[a].key == y[b].key
    ensures |CreateEdits([], x[a].value, y[b].value, true)| <= |MemberEdits(whole, [], x, y, true)|
    decreases |x| + |y|
  {
    hide MemberEdits, HeadEdits, ToMap, Denote, CompareStrings, Sorted, Unique, CreateEdits, Replaced;
    MemberEditsUnfold(whole, [], x, y, true);
    var diff := Turn(x, y, true);
    var x', y' := if diff <= 0 then x[1..] else x, if diff >= 0 then y[1..] else y;
    HeadsOfMaps(x, y, x[a].key);
    PlaceOfHead(x, y, a, b);
    if HeadName(x, y, diff) == x[a].key {
      NestedHead(whole, x, y);
      var p := KeyPath(x[0].key);
      CreatePrefixed(p, [], x[0].value, y[0].value);
      assert p + [] == p;
    } else {
      var a', b' := if diff <= 0 then a - 1 else a, if diff >= 0 then b - 1 else b;
      assert x'[a'] == x[a] && y'[b'] == y[b];
      FewerPerMember(whole, x', y', a', b');
    }
  }

  /** A single patch for a member that is removed or replaced works only for the first member of its name up to case. */
  lemma OnlyPatchLeads(ms: seq<Member>, x: seq<Member>, y: seq<Member>, k: Text)
    requires UniqueMembers(ms) && ListOk(x) && ListOk(y) && ToMap(ms) == ToMap(x) && k in ToMap(ms) && Survives(k)
    requires Touched(ToMap(x), ToMap(y), k) && forall h | h in ToMap(x) && h !in ToMap(y) :: h == k
    requires Generated(PatchFor(x, y, k)) && Leaves(ApplyEdit(Object(ms), PatchFor(x, y, k)), ToMap(y))
    ensures Leads(ms, k)
  {
    hide ToMap, Denote, Unique, Survives, FindKey, RemoveAt, Leads, ApplyEdit, ReadBack, AddBelow, Fresh, Replaced;
    DecodeUndoesEncodeHere(k);
    DistinctNames(ms);
    LookupMap(ms, k);
    MapOf(ms);
    LeadsFinds(ms, k);
    var i := FindKey(ms, k, false);
    if !Leads(ms, k) {
      SameMember(ms, i, k);
      RemovedMap(ms, i);
      var rest := RemoveAt(ms, i);
      assert k in ToMap(rest) && (k in ToMap(y) ==> ms[i].key in ToMap(y));
      if k in ToMap(y) {
        var v := PatchFor(x, y, k).value.value;
        ReplaceActs(ms, Last, k, v);
        FreshUnique(x, y, k);
        LastAgain(ms, i);
        AddBelowMeans(rest, Last, k, Fresh(v));
        var r := AddBelow(Object(rest), k, Fresh(v), true);
        LeftMembers(r.root, ToMap(y));
      } else {
        RemoveActs(ms, Last, k);
        ObjectLeaves(rest, RemoveTail(|ms|, Last, i), ToMap(y));
      }
    }
  }

  lemma LastAgain(ms: seq<Member>, i: nat)
    requires i < |ms|
    ensures RemoveTail(|ms|, Last, i) == Last
  {}

  lemma FreshUnique(x: seq<Member>, y: seq<Member>, k: Text)
    requires ListOk(y) && k in ToMap(y)
    ensures Unique(Fresh(PatchFor(x, y, k).value.value))
  {
    LookupMap(y, k);
    FreshMeans(y[FindKey(y, k, true)].value);
  }

  /** Where at most one patch is generated, at any depth, it leads to the goal only if it fits. */
  lemma {:induction false} FewEditsFit(cur: Json, from: Json, to: Json)
    requires Ready(cur) && Unique(from) && Unique(to) && Denote(cur) == Denote(from)
    requires |CreateEdits([], from, to, true)| <= 1
    ensures AllGenerated(CreateEdits([], from, to, true))
    ensures Reaches(ApplyEdits(cur, CreateEdits([], from, to, true)), to) ==> Fits(cur, Denote(to))
    decreases Depth(from)
  {
    hide CreateEdits, ItemEdits, MemberEdits, ApplyEdits, MergeSort, AllGenerated;
    CreateShape([], from, to);
    if Reaches(ApplyEdits(cur, CreateEdits([], from, to, true)), to) {
      if from.Array? && to.Array? {
        ArrayEdits(from, to);
        ArrayParts(cur.items, from.items);
        var t := Denote(to).items;
        forall i | 0 <= i < |cur.items| && i < |t|
          ensures Fits(cur.items[i], t[i])
        {
          ItemsReached(cur.items, from.items, to.items, i);
          FewerPerItem(from.items, to.items, 0, i);
          FewEditsFit(cur.items[i], from.items[i], to.items[i]);
        }
      } else if from.Object? && to.Object? {
        ObjectFits(cur, from, to);
      }
    }
  }

  lemma {:induction false} ObjectFits(cur: Json, from: Json, to: Json)
    requires from.Object? && to.Object?
    requires Ready(cur) && Unique(from) && Unique(to) && Denote(cur) == Denote(from)
    requires |CreateEdits([], from, to, true)| <= 1 && AllGenerated(CreateEdits([], from, to, true))
    requires Reaches(ApplyEdits(cur, CreateEdits([], from, to, true)), to)
    ensures Fits(cur, Denote(to))
    decreases Depth(from), 0
  {
    hide CreateEdits, MemberEdits, ApplyEdits, MergeSort, AllGenerated, ToMap, Survives, Replaced, Ready, Leads;
    var x, y := MergeSort(from.members, true), MergeSort(to.members, true);
    ObjectEdits(from, to);
    ReadyParts(cur, from);
    var ms := cur.members;
    ListOkSorted(from.members);
    ListOkSorted(to.members);
    BadNameFails(from, ms, x, y);
    ListOkUnique(x);
    ListOkUnique(y);
    MapOf(ms);
    var t := ToMap(y);
    forall c | 0 <= c < |ms|
      ensures if ms[c].key in t && !Replaced(Denote(ms[c].value), t[ms[c].key]) then Fits(ms[c].value, t[ms[c].key])
        else Survives(ms[c].key) && Leads(ms, ms[c].key)
    {
      var k := ms[c].key;
      if k in t && !Replaced(Denote(ms[c].value), t[k]) {
        var a := MemberAt(x, k);
        var b := MemberAt(y, k);
        MemberReached(from, ms, x, y, c, a, b);
        FewerPerMember(from, x, y, a, b);
        assert x[a] in x;
        FewEditsFit(ms[c].value, x[a].value, y[b].value);
      } else {
        OnlyPatch(from, x, y, k);
        OneApplied(Object(ms), PatchFor(x, y, k));
        OnlyPatchLeads(ms, x, y, k);
      }
    }
  }

  lemma OneApplied(root: Json, e: Edit)
    requires AllGenerated([e])
    ensures Generated(e) && ApplyEdits(root, [e]) == ApplyEdit(root, e)
  {
    assert [e][0] == e;
    ApplyOne(root, e);
  }

  /** Where one patch is generated, at any depth, the round trip succeeds if and only if the patch fits. */
  lemma OnePatchExactly(copy: Json, from: Json, to: Json)
    requires Ready(copy) && Unique(from) && Unique(to) && Denote(copy) == Denote(from)
    requires |CreateEdits([], from, to, true)| <= 1
    ensures Reaches(ApplyPatches(copy, GeneratePatches(from, to, true), true), to) <==> Fits(copy, Denote(to))
  {
    hide CreateEdits, ApplyEdits, ApplyAll, Reaches, Ready, Fits;
    FewEditsFit(copy, from, to);
    ComposeAllApplies(copy, CreateEdits([], from, to, true));
    if Fits(copy, Denote(to)) {
      RoundTrip(copy, from, to);
    }
  }

  // ----- more than one patch

  /** Two removals can make up for each other, so fitting is not necessary as soon as there are two patches. */
  lemma BothRemoved(k: Text, l: Text, u: Json, v: Json)
    requires Survives(k) && Survives(l) && Fold(k) == Fold(l) && Strcmp(l, k) < 0 && Unique(u) && Unique(v)
    ensures var copy := Object([Entry(k, u), Entry(l, v)]);
      && Reaches(ApplyPatches(copy, GeneratePatches(copy, Object([]), true), true), Object([]))
      && !Fits(copy, Denote(Object([])))
  {
    hide CreateEdits, ApplyEdits, ApplyAll, Unique, Survives, Denote, Fits, AllGenerated, Leads;
    var a, b := Entry(k, u), Entry(l, v);
    BothEdits(a, b);
    BothRun(a, b);
    ComposeAllApplies(Object([a, b]), CreateEdits([], Object([a, b]), Object([]), true));
    EmptyMeans();
    NotAhead(a, b);
    if Fits(Object([a, b]), VObject(map[])) {
      FitsAbsent([a, b], 1);
    }
  }

  lemma NotAhead(a: Member, b: Member)
    requires Fold(a.key) == Fold(b.key) && Strcmp(b.key, a.key) < 0
    ensures !Leads([a, b], b.key)
  {
    var ms := [a, b];
    assert ms[1].key == b.key && Fold(ms[0].key) == Fold(b.key);
  }

  lemma BothRun(a: Member, b: Member)
    requires Survives(a.key) && Survives(b.key) && Fold(a.key) == Fold(b.key)
    ensures var es := [Edit(REMOVE, KeyPath(b.key), None), Edit(REMOVE, KeyPath(a.key), None)];
      AllGenerated(es) && ApplyEdits(Object([a, b]), es) == Applied(0, Object([]))
  {
    hide ApplyEdit, Encode, Survives;
    var ms, es := [a, b], [Edit(REMOVE, KeyPath(b.key), None), Edit(REMOVE, KeyPath(a.key), None)];
    assert es[1..] == [es[1]];
    DecodeUndoesEncodeHere(a.key);
    DecodeUndoesEncodeHere(b.key);
    StrcmpZero(Fold(b.key), Fold(a.key));
    StrcmpZero(Fold(a.key), Fold(b.key));
    RemoveActs(ms, Last, b.key);
    RemoveActs([b], Last, a.key);
    assert RemoveAt(ms, 0) == [b] && RemoveAt([b], 0) == [];
    ApplyOne(Object([b]), es[1]);
  }

  lemma FitsAbsent(ms: seq<Member>, i: nat)
    requires i < |ms| && Fits(Object(ms), VObject(map[]))
    ensures Leads(ms, ms[i].key)
  {}

  lemma EmptyMeans()
    ensures Unique(Object([])) && Denote(Object([])) == VObject(map[])
  {}

  /** The two removals are generated in the order of the names. */
  lemma BothEdits(a: Member, b: Member)
    requires Strcmp(b.key, a.key) < 0
    ensures CreateEdits([], Object([a, b]), Object([]), true) ==
      [Edit(REMOVE, KeyPath(b.key), None), Edit(REMOVE, KeyPath(a.key), None)]
  {
    hide Encode, CompareStrings, MemberEdits, HeadEdits;
    var from, to := Object([a, b]), Object([]);
    ObjectEdits(from, to);
    BothSorted(a, b);
    var x := [b, a];
    assert x[1..] == [a] && [a][1..] == [];
    MemberEditsUnfold(from, [], x, [], true);
    MemberEditsUnfold(from, [], [a], [], true);
    MemberEditsUnfold(from, [], [], [], true);
    RemovalHead(from, x);
    RemovalHead(from, [a]);
  }

  lemma RemovalHead(whole: Json, x: seq<Member>)
    requires x != [] && forall m | m in x :: m.value < whole
    ensures Turn(x, [], true) == -1 && HeadEdits(whole, [], x, [], -1, true) == [Edit(REMOVE, KeyPath(x[0].key), None)]
  {
    assert [] + [SLASH] + Encode(x[0].key) == KeyPath(x[0].key);
  }

  lemma BothSorted(a: Member, b: Member)
    requires Strcmp(b.key, a.key) < 0
    ensures MergeSort([a, b], true) == [b, a] && MergeSort<Json>([], true) == []
  {
    StrcmpAntisymmetric(a.key, b.key);
    assert [a, b][..1] == [a] && [a, b][1..] == [b];
    assert !Ascending([a, b], true) by {
      assert Sorting.Compare([a, b][0], [a, b][1], true) > 0;
    }
    assert MergeSort([a], true) == [a] && MergeSort([b], true) == [b];
    assert [b][1..] == [] && Merge([a], [], true) == [a];
    assert Merge([a], [b], true) == [b] + [a];
  }
}
