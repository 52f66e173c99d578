/** Applying generated patches to a copy of `from` yields `to`. */
module PatchRoundTrip {
  import opened Basics
  import opened Strings
  import opened Sorting
  import opened Tails
  import opened Json
  import opened CompareProofs
  import opened Pointer
  import opened PointerDecoding
  import opened Patch
  import opened PatchFrames
  import opened PatchShapes
  import opened PatchMembers

  /** A tree that patches can be applied to: such as the parser and `cJSON_Duplicate` make, with countable arrays. */
  ghost predicate Ready(j: Json) {
    Unique(j) && Countable(j) && Appendable(j)
  }

  /** The only patch for such a pair is to replace one by the other. */
  predicate Replaced(f: Value, t: Value) {
    !(f.VArray? && t.VArray?) && !(f.VObject? && t.VObject?) && f != t
  }

  /** Among the names of both sides the mode tells any two apart. */
  ghost predicate Apart(ms: seq<Member>, goal: map<Text, Value>, caseSensitive: bool) {
    ToldApart(ToMap(ms).Keys + goal.Keys, caseSensitive)
  }

  lemma StillApart(ms: seq<Member>, ms': seq<Member>, goal: map<Text, Value>, caseSensitive: bool)
    requires Apart(ms, goal, caseSensitive) && ToMap(ms').Keys <= ToMap(ms).Keys + goal.Keys
    ensures Apart(ms', goal, caseSensitive)
  {
    hide ToMap;
  }

  /**
   What the patches from c to the data t ask of names: each member that is removed, added
   or replaced as a whole has a name that survives being written and read back, and one
   that is removed or replaced comes before any member whose name differs only in case.
   */
  ghost predicate Fits(c: Json, t: Value, caseSensitive: bool := true) {
    match (c, t)
    case (Array(items), VArray(goal)) => forall i | 0 <= i < |items| && i < |goal| ::
      Fits(items[i], goal[i], caseSensitive)
    case (Object(ms, _), VObject(goal)) =>
      && Apart(ms, goal, caseSensitive)
      && (forall i | 0 <= i < |ms| ::
            if ms[i].key in goal &&
              !Replaced(Denote(ms[i].value), goal[ms[i].key]) then Fits(ms[i].value, goal[ms[i].key], caseSensitive)
            else Survives(ms[i].key) && Leads(ms, ms[i].key))
      && (forall k | k in goal && k !in ToMap(ms) :: Survives(k))
    case _ => true
  }

  // ----- the round trip

  ghost predicate Reaches(r: Applied, to: Json) {
    Succeeds(r) && Unique(r.root) && Denote(r.root) == Denote(to)
  }

  lemma ReplacedEdits(path: Text, from: Json, to: Json, caseSensitive: bool := true)
    ensures Replaced(Denote(from), Denote(to)) ==>
      CreateEdits(path, from, to, caseSensitive) == [Edit(REPLACE, path, Some(to))]
    ensures !Replaced(Denote(from), Denote(to)) && !(from.Array? && to.Array?) && !(from.Object? && to.Object?) ==>
      CreateEdits(path, from, to, caseSensitive) == [] && Denote(from) == Denote(to)
  {}

  /** Edits of a child, at any depth, that leave the data of `to`. */
  ghost predicate ReachesChild(c: Json, to: Json) {
    Unique(c) && Denote(c) == Denote(to)
  }

  /**
   The patches generated from `from` to `to` apply without error to any tree that holds
   the same data as `from` and fits, and leave the data of `to`.
   */
  lemma {:induction false} EditsReach(cur: Json, from: Json, to: Json, caseSensitive: bool := true)
    requires Ready(cur) && Unique(from) && Unique(to) && Denote(cur) == Denote(from) &&
      Fits(cur, Denote(to), caseSensitive)
    ensures AllGenerated(CreateEdits([], from, to, caseSensitive))
    ensures Reaches(ApplyEdits(cur, CreateEdits([], from, to, caseSensitive), caseSensitive), to)
    decreases Depth(from), 2, 0
  {
    hide ItemEdits, MemberEdits, MergeSort;
    CreateShape([], from, to, caseSensitive);
    if from.Array? && to.Array? {
      ArrayParts(cur.items, from.items);
      assert forall i | 0 <= i < |to.items| :: Denote(to).items[i] == Denote(to.items[i]);
      ArrayReaches(cur.items, from.items, to.items, caseSensitive);
      assert CreateEdits([], from, to, caseSensitive) == ItemEdits([], from.items, to.items, 0, caseSensitive);
    } else if from.Object? && to.Object? {
      ObjectReaches(cur.members, from, to, caseSensitive);
      assert CreateEdits([], from, to, caseSensitive) ==
        MemberEdits(from, [], MergeSort(from.members, caseSensitive), MergeSort(to.members, caseSensitive),
          caseSensitive);
    } else {
      ReplacedEdits([], from, to, caseSensitive);
      FreshMeans(to);
      if CreateEdits([], from, to, caseSensitive) != [] {
        ApplyOne(cur, Edit(REPLACE, [], Some(to)), caseSensitive);
      }
    }
  }

  lemma ArrayParts(c: seq<Json>, s: seq<Json>)
    requires Denote(Array(c)) == Denote(Array(s))
    ensures |c| == |s| && forall i | 0 <= i < |c| :: Denote(c[i]) == Denote(s[i])
  {
    var x, y := Denote(Array(c)).items, Denote(Array(s)).items;
    assert |x| == |c| && |y| == |s| && x == y;
    forall i | 0 <= i < |c|
      ensures Denote(c[i]) == Denote(s[i])
    {
      assert x[i] == y[i];
    }
  }

  /** What holds of an element, or of the value of a member, that patches are applied to. */
  ghost predicate Matched(c: Json, from: Json, to: Json, caseSensitive: bool := true) {
    Ready(c) && Unique(from) && Unique(to) && Denote(c) == Denote(from) && Fits(c, Denote(to), caseSensitive)
  }

  lemma {:induction false} ArrayReaches(c: seq<Json>, s: seq<Json>, t: seq<Json>, caseSensitive: bool := true)
    requires |c| == |s| && |c| <= SIZE_RANGE && (forall i | 0 <= i < |t| :: Unique(t[i]))
    requires forall i | 0 <= i < |s| && i < |t| :: Matched(c[i], s[i], t[i], caseSensitive)
    ensures AllGenerated(ItemEdits([], s, t, 0, caseSensitive))
    ensures Reaches(ApplyEdits(Array(c), ItemEdits([], s, t, 0, caseSensitive), caseSensitive), Array(t))
    decreases 1 + DeepestItem(s), 1, 0
  {
    hide ItemEdits, ApplyEdits, Matched;
    ItemShape([], s, t, 0, caseSensitive);
    var r := ItemsReach([], c, s, t, caseSensitive);
    assert [] + c == c && [] + r == r;
    ArrivedMeans(r, t);
  }

  lemma ArrivedMeans(r: seq<Json>, t: seq<Json>)
    requires Arrived(r, t)
    ensures Unique(Array(r)) && Denote(Array(r)) == Denote(Array(t))
  {
    assert Denote(Array(r)).items == Denote(Array(t)).items;
  }

  /** One element, patched in place. */
  lemma {:induction false} ItemReaches(items: seq<Json>, i: nat, from: Json, to: Json,
      caseSensitive: bool := true) returns (c: Json)
    requires i < |items| <= SIZE_RANGE && Matched(items[i], from, to, caseSensitive)
    ensures AllGenerated(CreateEdits([SLASH] + Digits(i), from, to, caseSensitive))
    ensures ApplyEdits(Array(items), CreateEdits([SLASH] + Digits(i), from, to, caseSensitive), caseSensitive) ==
      Applied(0, Array(items[i := c]))
    ensures ReachesChild(c, to)
    decreases Depth(from), 3, 0
  {
    hide CreateEdits, Digits, Fits;
    EditsReach(items[i], from, to, caseSensitive);
    c := ItemRun(items, i, from, to, caseSensitive);
  }

  /** The patches for element i change that element as they would change it alone. */
  lemma ItemRun(items: seq<Json>, i: nat, from: Json, to: Json, caseSensitive: bool := true) returns (c: Json)
    requires i < |items| <= SIZE_RANGE
    ensures AllGenerated(CreateEdits([SLASH] + Digits(i), from, to, caseSensitive))
    ensures AllGenerated(CreateEdits([], from, to, caseSensitive))
    ensures var r := ApplyEdits(items[i], CreateEdits([], from, to, caseSensitive), caseSensitive);
      var whole := ApplyEdits(Array(items), CreateEdits([SLASH] + Digits(i), from, to, caseSensitive), caseSensitive);
      && (Succeeds(r) <==> Succeeds(whole))
      && (Succeeds(r) ==> r.root == c && whole == Applied(0, Array(items[i := c])))
  {
    hide CreateEdits, Digits, Fits;
    var p, d := [SLASH] + Digits(i), CreateEdits([], from, to, caseSensitive);
    CreateShape(p, from, to, caseSensitive);
    CreateShape([], from, to, caseSensitive);
    CreatePrefixed(p, [], from, to, caseSensitive);
    assert p + [] == p;
    var r := ApplyEdits(items[i], d, caseSensitive);
    c := if Succeeds(r) then r.root else to;
    if AllRooted(d) {
      EditsUnder(Array(items), i, d, caseSensitive);
    } else {
      ReplaceItem(items, i, to, caseSensitive);
      assert Prefixed(p, d) == [Edit(REPLACE, p, Some(to))];
      ApplyOne(Array(items), Edit(REPLACE, p, Some(to)), caseSensitive);
      ApplyOne(items[i], Edit(REPLACE, [], Some(to)), caseSensitive);
    }
  }

  lemma {:induction false} ZipStep(all: seq<Json>, i: nat, s: seq<Json>, t: seq<Json>,
      caseSensitive: bool := true) returns (c: Json)
    requires i < |all| <= SIZE_RANGE && s != [] && t != [] && Matched(all[i], s[0], t[0], caseSensitive)
    ensures AllGenerated(ItemEdits([], s, t, i, caseSensitive)) &&
      AllGenerated(ItemEdits([], s[1..], t[1..], i + 1, caseSensitive))
    ensures ApplyEdits(Array(all), ItemEdits([], s, t, i, caseSensitive), caseSensitive) ==
      ApplyEdits(Array(all[i := c]), ItemEdits([], s[1..], t[1..], i + 1, caseSensitive), caseSensitive)
    ensures ReachesChild(c, t[0])
    decreases 1 + DeepestItem(s), 0, 0
  {
    hide CreateEdits, Digits, ApplyEdits, AllGenerated, Unique, Denote, Matched;
    ItemShape([], s, t, i, caseSensitive);
    ItemShape([], s[1..], t[1..], i + 1, caseSensitive);
    c := ItemReaches(all, i, s[0], t[0], caseSensitive);
    assert [] + [SLASH] + Digits(i) == [SLASH] + Digits(i);
    ApplyConcat(Array(all), CreateEdits([SLASH] + Digits(i), s[0], t[0], caseSensitive),
      ItemEdits([], s[1..], t[1..], i + 1, caseSensitive), caseSensitive);
  }

  lemma CutStep(all: seq<Json>, i: nat, s: seq<Json>, caseSensitive: bool := true)
    requires i < |all| <= SIZE_RANGE && s != []
    ensures AllGenerated(ItemEdits([], s, [], i, caseSensitive)) &&
      AllGenerated(ItemEdits([], s[1..], [], i, caseSensitive))
    ensures ApplyEdits(Array(all), ItemEdits([], s, [], i, caseSensitive), caseSensitive) ==
      ApplyEdits(Array(RemoveAt(all, i)), ItemEdits([], s[1..], [], i, caseSensitive), caseSensitive)
  {
    hide Digits, Encode, ApplyEdit;
    ItemShape([], s, [], i, caseSensitive);
    ItemShape([], s[1..], [], i, caseSensitive);
    var e := Edit(REMOVE, [SLASH] + Encode(Digits(i)), None);
    RemoveItem(all, i, caseSensitive);
    assert [] + [SLASH] + Encode(Digits(i)) == [SLASH] + Encode(Digits(i));
    ApplyOne(Array(all), e, caseSensitive);
    ApplyConcat(Array(all), [e], ItemEdits([], s[1..], [], i, caseSensitive), caseSensitive);
  }

  lemma GrowStep(all: seq<Json>, i: nat, t: seq<Json>, caseSensitive: bool := true)
    requires t != []
    ensures AllGenerated(ItemEdits([], [], t, i, caseSensitive)) &&
      AllGenerated(ItemEdits([], [], t[1..], i + 1, caseSensitive))
    ensures ApplyEdits(Array(all), ItemEdits([], [], t, i, caseSensitive), caseSensitive) ==
      ApplyEdits(Array(all + [Fresh(t[0])]), ItemEdits([], [], t[1..], i + 1, caseSensitive), caseSensitive)
  {
    hide Encode, ApplyEdit, Fresh;
    ItemShape([], [], t, i, caseSensitive);
    ItemShape([], [], t[1..], i + 1, caseSensitive);
    var e := Edit(ADD, [SLASH] + Encode(DASH), Some(t[0]));
    AppendItem(all, t[0], caseSensitive);
    assert [] + [SLASH] + Encode(DASH) == [SLASH] + Encode(DASH);
    ApplyOne(Array(all), e, caseSensitive);
    ApplyConcat(Array(all), [e], ItemEdits([], [], t[1..], i + 1, caseSensitive), caseSensitive);
  }

  ghost predicate Arrived(r: seq<Json>, t: seq<Json>) {
    |r| == |t| && forall i | 0 <= i < |r| :: ReachesChild(r[i], t[i])
  }

  lemma ArrivedCons(c: Json, rest: seq<Json>, t: seq<Json>)
    requires t != [] && ReachesChild(c, t[0]) && Arrived(rest, t[1..])
    ensures Arrived([c] + rest, t)
  {
    hide ReachesChild;
    var r := [c] + rest;
    forall i | 0 <= i < |r|
      ensures ReachesChild(r[i], t[i])
    {
      if i > 0 {
        assert r[i] == rest[i-1] && t[i] == t[1..][i-1];
      }
    }
  }

  lemma {:induction false} ItemsReach(done: seq<Json>, c: seq<Json>, s: seq<Json>, t: seq<Json>,
      caseSensitive: bool := true) returns (r: seq<Json>)
    requires |c| == |s| && (c != [] ==> |done| + |c| <= SIZE_RANGE) && (forall i | 0 <= i < |t| :: Unique(t[i]))
    requires forall i | 0 <= i < |s| && i < |t| :: Matched(c[i], s[i], t[i], caseSensitive)
    ensures AllGenerated(ItemEdits([], s, t, |done|, caseSensitive))
    ensures ApplyEdits(Array(done + c), ItemEdits([], s, t, |done|, caseSensitive), caseSensitive) ==
      Applied(0, Array(done + r))
    ensures Arrived(r, t)
    decreases 1 + DeepestItem(s), 0, 1 + |s| + |t|
  {
    hide ItemEdits, ApplyEdits, AllGenerated, Unique, Denote, Matched, Arrived, Fresh, ReachesChild;
    var all, n := done + c, |done|;
    if s != [] && t != [] {
      var head := ZipStep(all, n, s, t, caseSensitive);
      DeepestItemIsLeast(s[1..], DeepestItem(s));
      assert all[n := head] == (done + [head]) + c[1..];
      var rest := ItemsReach(done + [head], c[1..], s[1..], t[1..], caseSensitive);
      r := [head] + rest;
      ArrivedCons(head, rest, t);
      assert (done + [head]) + rest == done + r;
    } else if s != [] {
      CutStep(all, n, s, caseSensitive);
      assert RemoveAt(all, n) == done + c[1..];
      DeepestItemIsLeast(s[1..], DeepestItem(s));
      r := ItemsReach(done, c[1..], s[1..], t, caseSensitive);
    } else if t != [] {
      GrowStep(all, n, t, caseSensitive);
      assert all + [Fresh(t[0])] == (done + [Fresh(t[0])]) + [];
      var rest := ItemsReach(done + [Fresh(t[0])], [], [], t[1..], caseSensitive);
      r := [Fresh(t[0])] + rest;
      FreshReaches(t[0]);
      ArrivedCons(Fresh(t[0]), rest, t);
      assert (done + [Fresh(t[0])]) + rest == done + r;
    } else {
      r := [];
      NothingToDo(done, c, n, caseSensitive);
    }
  }

  lemma FreshReaches(to: Json)
    requires Unique(to)
    ensures ReachesChild(Fresh(to), to)
  {
    FreshMeans(to);
  }

  lemma NothingToDo(done: seq<Json>, c: seq<Json>, n: nat, caseSensitive: bool := true)
    requires c == []
    ensures AllGenerated(ItemEdits([], [], [], n, caseSensitive))
    ensures ApplyEdits(Array(done + c), ItemEdits([], [], [], n, caseSensitive), caseSensitive) ==
      Applied(0, Array(done + []))
    ensures Arrived([], [])
  {
    assert done + c == done + [];
  }

  lemma ApplyOne(root: Json, e: Edit, caseSensitive: bool := true)
    requires Generated(e)
    ensures AllGenerated([e]) && ApplyEdits(root, [e], caseSensitive) == ApplyEdit(root, e, caseSensitive)
  {
    assert [e][1..] == [];
  }

  // ----- objects

  /** The member of the patched object that still stands for m, and that the patches for it fit. */
  ghost predicate Holds(ms: seq<Member>, a: nat, m: Member, goal: map<Text, Value>, caseSensitive: bool := true)
    requires a < |ms|
  {
    && ms[a].key == m.key && Denote(ms[a].value) == Denote(m.value) && Ready(ms[a].value)
    && (if m.key in goal && !Replaced(Denote(m.value), goal[m.key]) then Fits(ms[a].value, goal[m.key], caseSensitive)
      else Survives(m.key))
  }

  /** ... and, where that one is removed or replaced, the one that the lookup finds. */
  ghost predicate Ahead(ms: seq<Member>, m: Member, goal: map<Text, Value>) {
    (m.key in goal && !Replaced(Denote(m.value), goal[m.key])) || Leads(ms, m.key)
  }

  ghost predicate Held(ms: seq<Member>, m: Member, goal: map<Text, Value>, caseSensitive: bool := true) {
    (exists a :: 0 <= a < |ms| && Holds(ms, a, m, goal, caseSensitive)) && Ahead(ms, m, goal)
  }

  lemma HeldFound(ms: seq<Member>, m: Member, goal: map<Text, Value>, caseSensitive: bool := true) returns (i: nat)
    requires UniqueMembers(ms) && Held(ms, m, goal, caseSensitive)
    ensures i == FindKey(ms, m.key, true) && i < |ms| && Holds(ms, i, m, goal, caseSensitive)
  {
    i :| 0 <= i < |ms| && Holds(ms, i, m, goal, caseSensitive);
    FindKeyExact(ms, i);
  }

  lemma LeadsAfterRemoval(ms: seq<Member>, i: nat, k: Text)
    requires i < |ms| && Leads(ms, k)
    ensures Leads(RemoveAt(ms, i), k)
  {
    var r := RemoveAt(ms, i);
    forall a, b | 0 <= a < b < |r| && r[b].key == k
      ensures Fold(r[a].key) != Fold(k)
    {
      var a', b' := if a < i then a else a + 1, if b < i then b else b + 1;
      assert r[a] == ms[a'] && r[b] == ms[b'];
    }
  }

  lemma HeldAfterRemoval(ms: seq<Member>, i: nat, m: Member, goal: map<Text, Value>, caseSensitive: bool := true)
    requires i < |ms| && Held(ms, m, goal, caseSensitive) && ms[i].key != m.key
    ensures Held(RemoveAt(ms, i), m, goal, caseSensitive)
  {
    hide Leads, Ready, Fits, Denote, Replaced, Survives;
    var a :| 0 <= a < |ms| && Holds(ms, a, m, goal, caseSensitive);
    assert Holds(RemoveAt(ms, i), if a < i then a else a - 1, m, goal, caseSensitive);
    if Leads(ms, m.key) {
      LeadsAfterRemoval(ms, i, m.key);
    }
  }

  lemma HeldAfterAppend(ms: seq<Member>, n: Member, m: Member, goal: map<Text, Value>, caseSensitive: bool := true)
    requires Held(ms, m, goal, caseSensitive) && n.key != m.key
    ensures Held(ms + [n], m, goal, caseSensitive)
  {
    hide Ready, Fits, Denote, Replaced, Survives;
    var a :| 0 <= a < |ms| && Holds(ms, a, m, goal, caseSensitive);
    assert Holds(ms + [n], a, m, goal, caseSensitive);
  }

  lemma HeldAfterUpdate(ms: seq<Member>, i: nat, v: Json, m: Member, goal: map<Text, Value>,
      caseSensitive: bool := true)
    requires i < |ms| && Held(ms, m, goal, caseSensitive) && ms[i].key != m.key
    ensures Held(ms[i := ms[i].(value := v)], m, goal, caseSensitive)
  {
    hide Ready, Fits, Denote, Replaced, Survives;
    var r := ms[i := ms[i].(value := v)];
    var a :| 0 <= a < |ms| && Holds(ms, a, m, goal, caseSensitive);
    assert Holds(r, a, m, goal, caseSensitive);
    forall a, b | 0 <= a < b < |r| && r[b].key == m.key && Leads(ms, m.key)
      ensures Fold(r[a].key) != Fold(m.key)
    {
      assert r[a].key == ms[a].key && r[b].key == ms[b].key;
    }
  }

  ghost predicate ListOk(x: seq<Member>, caseSensitive: bool := true) {
    UniqueMembers(x) && Sorted(x, caseSensitive)
  }

  /** The object ms while x is what is left of `from` and y what is left of `to`, which means the goal. */
  ghost predicate Pending(ms: seq<Member>, x: seq<Member>, y: seq<Member>, goal: map<Text, Value>,
      caseSensitive: bool := true) {
    && UniqueMembers(ms) && ListOk(x, caseSensitive) && ListOk(y, caseSensitive) && Apart(ms, goal, caseSensitive)
    && (forall i | 0 <= i < |x| :: Held(ms, x[i], goal, caseSensitive) && (x[i].key in goal ==> x[i].key in ToMap(y)))
    && (forall k | k in ToMap(y) ::
      k in goal && goal[k] == ToMap(y)[k] && (k in ToMap(x) || (k !in ToMap(ms) && Survives(k))))
  }

  ghost function Patched(m: map<Text, Value>, x: map<Text, Value>, y: map<Text, Value>): map<Text, Value> {
    (m - x.Keys) + y
  }

  lemma ListTail(x: seq<Member>, caseSensitive: bool := true)
    requires x != [] && ListOk(x, caseSensitive)
    ensures ListOk(x[1..], caseSensitive) && x[0].key !in ToMap(x[1..]) &&
      ToMap(x) == ToMap(x[1..])[x[0].key := Denote(x[0].value)]
    ensures forall i | 1 <= i < |x| :: x[i].key != x[0].key
  {
    HeadMap(x);
    TailSorted(x, caseSensitive);
    assert forall i | 0 <= i < |x| - 1 :: x[1..][i] == x[i+1];
  }

  /** The name at the head of one list only, or of both. */
  lemma TurnKey(x: seq<Member>, y: seq<Member>, caseSensitive: bool := true)
    requires ListOk(x, caseSensitive) && ListOk(y, caseSensitive) && (x != [] || y != [])
    requires ToldApart(ToMap(x).Keys + ToMap(y).Keys, caseSensitive)
    ensures var diff := Turn(x, y, caseSensitive);
      if diff == 0 then x[0].key == y[0].key
      else if diff < 0 then x[0].key !in ToMap(y)
      else y[0].key !in ToMap(x)
  {
    if x != [] && y != [] {
      assert x[0].key in ToMap(x) && y[0].key in ToMap(y);
      SameApart(x[0].key, y[0].key, ToMap(x).Keys + ToMap(y).Keys, caseSensitive);
      CompareTotal(x[0], y[0], caseSensitive);
      if Turn(x, y, caseSensitive) < 0 {
        HeadOutside(x[0].key, y, caseSensitive);
      } else if Turn(x, y, caseSensitive) > 0 {
        HeadOutside(y[0].key, x, caseSensitive);
      }
    }
  }

  /** The lists that are left are made of names of the object and of the goal. */
  lemma PendingApart(ms: seq<Member>, x: seq<Member>, y: seq<Member>, goal: map<Text, Value>, caseSensitive: bool)
    requires Pending(ms, x, y, goal, caseSensitive)
    ensures ToldApart(ToMap(x).Keys + ToMap(y).Keys, caseSensitive)
    ensures forall k | k in ToMap(ms).Keys + goal.Keys :: Alone(ms, k, caseSensitive)
  {
    hide ToMap, Denote, Unique, Survives, Fits, Ready, Replaced, Leads, Sorted, FindKey;
    MapOf(x) by { DistinctNames(x); }
    MapOf(ms) by { DistinctNames(ms); }
    forall k | k in ToMap(x)
      ensures k in ToMap(ms)
    {
      var i :| 0 <= i < |x| && x[i].key == k;
      assert Held(ms, x[i], goal, caseSensitive);
    }
  }

  /** No other member is called k in another case, or the mode does not mind. */
  ghost predicate Alone(ms: seq<Member>, k: Text, caseSensitive: bool) {
    caseSensitive || forall i | 0 <= i < |ms| && ms[i].key != k :: Fold(ms[i].key) != Fold(k)
  }

  lemma AloneFound(ms: seq<Member>, k: Text, caseSensitive: bool)
    requires Alone(ms, k, caseSensitive)
    ensures FindKey(ms, k, caseSensitive) == FindKey(ms, k, true)
  {
    hide FindKey;
    forall i | 0 <= i < |ms|
      ensures CompareStrings(k, ms[i].key, caseSensitive) == 0 <==> CompareStrings(k, ms[i].key, true) == 0
    {
      StrcmpZero(k, ms[i].key);
      StrcmpZero(Fold(k), Fold(ms[i].key));
    }
    var i, j := FindKey(ms, k, caseSensitive), FindKey(ms, k, true);
    if i < j {
    } else if j < i {
    }
  }

  lemma AloneStill(ms: seq<Member>, i: nat, k: Text, caseSensitive: bool)
    requires i < |ms| && Alone(ms, k, caseSensitive)
    ensures Alone(RemoveAt(ms, i), k, caseSensitive)
  {}

  /** The object after one member has been patched, and what still has to be done to it. */
  ghost predicate Stepped(ms: seq<Member>, ms': seq<Member>, x: seq<Member>, y: seq<Member>, x': seq<Member>,
      y': seq<Member>,
      goal: map<Text, Value>, caseSensitive: bool := true) {
    && Pending(ms', x', y', goal, caseSensitive)
    && Patched(ToMap(ms'), ToMap(x'), ToMap(y')) == Patched(ToMap(ms), ToMap(x), ToMap(y))
  }

  lemma PatchedInsert(m: map<Text, Value>, x: map<Text, Value>, y: map<Text, Value>, k: Text, v: Value)
    requires k !in x && k !in y
    ensures Patched(m[k := v], x, y) == Patched(m, x, y[k := v])
  {}

  lemma PatchedExchange(m: map<Text, Value>, x: map<Text, Value>, y: map<Text, Value>, k: Text, u: Value, v: Value)
    requires k !in x && k !in y
    ensures Patched(m[k := v], x, y) == Patched(m, x[k := u], y[k := v])
  {}

  lemma PatchedDrop(m: map<Text, Value>, x: map<Text, Value>, y: map<Text, Value>, k: Text, u: Value)
    ensures Patched(m - {k}, x, y) == Patched(m, x[k := u], y)
  {}

  lemma RemovedStep(ms: seq<Member>, i: nat, x: seq<Member>, y: seq<Member>, goal: map<Text, Value>,
      caseSensitive: bool := true)
    requires Pending(ms, x, y, goal, caseSensitive) && x != [] && x[0].key !in ToMap(y) && i < |ms| &&
      ms[i].key == x[0].key
    ensures Stepped(ms, RemoveAt(ms, i), x, y, x[1..], y, goal, caseSensitive)
  {
    hide Denote, ToMap, Unique, Survives, Held, Patched, Sorted;
    var k, ms' := x[0].key, RemoveAt(ms, i);
    ListTail(x, caseSensitive);
    RemovedMap(ms, i);
    forall a | 0 <= a < |x[1..]|
      ensures Held(ms', x[1..][a], goal, caseSensitive) && (x[1..][a].key in goal ==> x[1..][a].key in ToMap(y))
    {
      HeldAfterRemoval(ms, i, x[a+1], goal, caseSensitive);
    }
    PatchedDrop(ToMap(ms), ToMap(x[1..]), ToMap(y), k, Denote(x[0].value));
  }

  lemma AppendedStep(ms: seq<Member>, v: Json, x: seq<Member>, y: seq<Member>, goal: map<Text, Value>,
      caseSensitive: bool := true)
    requires Pending(ms, x, y, goal, caseSensitive) && y != [] && y[0].key !in ToMap(x)
    requires Unique(v) && Denote(v) == Denote(y[0].value)
    ensures Stepped(ms, ms + [Entry(y[0].key, v)], x, y, x, y[1..], goal, caseSensitive)
  {
    hide Denote, ToMap, Unique, Survives, Held, Patched, Sorted;
    var k, m := y[0].key, Entry(y[0].key, v);
    var ms' := ms + [m];
    ListTail(y, caseSensitive);
    AppendedMap(ms, m);
    MapOf(x) by { DistinctNames(x); }
    forall a | 0 <= a < |x|
      ensures Held(ms', x[a], goal, caseSensitive) && (x[a].key in goal ==> x[a].key in ToMap(y[1..]))
    {
      HeldAfterAppend(ms, m, x[a], goal, caseSensitive);
    }
    PatchedInsert(ToMap(ms), ToMap(x), ToMap(y[1..]), k, Denote(v));
  }

  lemma UpdatedStep(ms: seq<Member>, i: nat, v: Json, x: seq<Member>, y: seq<Member>, goal: map<Text, Value>,
      caseSensitive: bool := true)
    requires Pending(ms, x, y, goal, caseSensitive) && x != [] && y != [] && x[0].key == y[0].key && i < |ms| &&
      ms[i].key == x[0].key
    requires Unique(v) && Denote(v) == Denote(y[0].value)
    ensures Stepped(ms, ms[i := ms[i].(value := v)], x, y, x[1..], y[1..], goal, caseSensitive)
  {
    hide Denote, ToMap, Unique, Survives, Held, Patched, Sorted;
    var k, ms' := x[0].key, ms[i := ms[i].(value := v)];
    ListTail(x, caseSensitive);
    ListTail(y, caseSensitive);
    UpdatedMap(ms, i, v);
    forall a | 0 <= a < |x[1..]|
      ensures Held(ms', x[1..][a], goal, caseSensitive) && (x[1..][a].key in goal ==> x[1..][a].key in ToMap(y[1..]))
    {
      HeldAfterUpdate(ms, i, v, x[a+1], goal, caseSensitive);
    }
    MapOf(ms) by { DistinctNames(ms); }
    PatchedExchange(ToMap(ms), ToMap(x[1..]), ToMap(y[1..]), k, Denote(x[0].value), Denote(v));
  }

  lemma ReplacedStep(ms: seq<Member>, i: nat, v: Json, x: seq<Member>, y: seq<Member>, goal: map<Text, Value>,
      caseSensitive: bool := true)
    requires Pending(ms, x, y, goal, caseSensitive) && x != [] && y != [] && x[0].key == y[0].key && i < |ms| &&
      ms[i].key == x[0].key
    requires Unique(v) && Denote(v) == Denote(y[0].value)
    ensures Stepped(ms, RemoveAt(ms, i) + [Entry(y[0].key, v)], x, y, x[1..], y[1..], goal, caseSensitive)
  {
    hide Denote, ToMap, Unique, Survives, Held, Patched, Sorted;
    var k, m := x[0].key, Entry(y[0].key, v);
    var rest := RemoveAt(ms, i);
    ListTail(x, caseSensitive);
    ListTail(y, caseSensitive);
    RemovedMap(ms, i);
    AppendedMap(rest, m);
    forall a | 0 <= a < |x[1..]|
      ensures Held(rest + [m], x[1..][a], goal, caseSensitive) &&
        (x[1..][a].key in goal ==> x[1..][a].key in ToMap(y[1..]))
    {
      HeldAfterRemoval(ms, i, x[a+1], goal, caseSensitive);
      HeldAfterAppend(rest, m, x[a+1], goal, caseSensitive);
    }
    MapOf(ms) by { DistinctNames(ms); }
    assert ToMap(rest + [m]) == ToMap(ms)[k := Denote(m.value)];
    PatchedExchange(ToMap(ms), ToMap(x[1..]), ToMap(y[1..]), k, Denote(x[0].value), Denote(m.value));
  }

  /** The patches for a member's value change that value as they would change it alone, or replace the member. */
  lemma MemberRun(ms: seq<Member>, tail: Tail, i: nat, from: Json, to: Json, caseSensitive: bool := true)
    requires Distinct(ms) && i < |ms| && Alone(ms, ms[i].key, caseSensitive)
    ensures var es, d := CreateEdits(KeyPath(ms[i].key), from, to, caseSensitive),
      CreateEdits([], from, to, caseSensitive);
      && AllGenerated(es) && AllGenerated(d)
      && (Replaced(Denote(from), Denote(to)) ==> es == [Edit(REPLACE, KeyPath(ms[i].key), Some(to))])
      && (!Replaced(Denote(from), Denote(to)) ==>
        ApplyEdits(Object(ms, tail), es, caseSensitive) ==
          (match ApplyEdits(ms[i].value, d, caseSensitive)
           case Fault => Fault
           case Applied(status, root) => Applied(status, Object(ms[i := ms[i].(value := root)], tail))))
  {
    hide CreateEdits, Encode, Denote, ApplyEdits;
    var p, d := KeyPath(ms[i].key), CreateEdits([], from, to, caseSensitive);
    CreateShape([], from, to, caseSensitive);
    CreateShape(p, from, to, caseSensitive);
    ReplacedEdits(p, from, to, caseSensitive);
    if !Replaced(Denote(from), Denote(to)) {
      CreatePrefixed(p, [], from, to, caseSensitive);
      assert p + [] == p;
      FindKeyExact(ms, i);
      AloneFound(ms, ms[i].key, caseSensitive);
      NotReplacedRooted(from, to, caseSensitive);
      EditsUnder(Object(ms, tail), i, d, caseSensitive);
    }
  }

  lemma NotReplacedRooted(from: Json, to: Json, caseSensitive: bool := true)
    requires !Replaced(Denote(from), Denote(to))
    ensures AllRooted(CreateEdits([], from, to, caseSensitive))
  {
    hide ItemEdits, MemberEdits, MergeSort;
    if from.Array? && to.Array? {
      ItemShape([], from.items, to.items, 0, caseSensitive);
      assert CreateEdits([], from, to, caseSensitive) == ItemEdits([], from.items, to.items, 0, caseSensitive);
    } else if from.Object? && to.Object? {
      SortPermutes(from.members, caseSensitive);
      var x, y := MergeSort(from.members, caseSensitive), MergeSort(to.members, caseSensitive);
      forall m | m in x
        ensures m.value < from && Depth(m.value) < Depth(from)
      {
        SameElements(from.members, x, m);
      }
      MemberShape(from, [], x, y, caseSensitive);
      assert CreateEdits([], from, to, caseSensitive) == MemberEdits(from, [], x, y, caseSensitive);
    } else {
      ReplacedEdits([], from, to, caseSensitive);
    }
  }

  /** A member present on both sides: patched in place, or taken out and linked in again at the end. */
  lemma {:induction false} SharedMemberReaches(whole: Json, ms: seq<Member>, x: seq<Member>, y: seq<Member>,
      goal: map<Text, Value>, caseSensitive: bool := true)
    returns (ms': seq<Member>)
    requires forall m | m in x :: m.value < whole && Depth(m.value) < Depth(whole)
    requires Pending(ms, x, y, goal, caseSensitive) && x != [] && y != [] && x[0].key == y[0].key
    ensures AllGenerated(HeadEdits(whole, [], x, y, 0, caseSensitive))
    ensures ApplyEdits(Object(ms), HeadEdits(whole, [], x, y, 0, caseSensitive), caseSensitive) ==
      Applied(0, Object(ms'))
    ensures Stepped(ms, ms', x, y, x[1..], y[1..], goal, caseSensitive)
    decreases Depth(whole), 0, 0
  {
    hide CreateEdits, Encode, Stepped, Denote, Fits, Replaced, ApplyEdit, Leads, Survives, MergeSort, ApplyEdits,
      Fresh, Ready;
    HeadShape(whole, [], x, y, 0, caseSensitive);
    var k, from, to := x[0].key, x[0].value, y[0].value;
    assert [] + [SLASH] + Encode(k) == KeyPath(k);
    var i := HeldFound(ms, x[0], goal, caseSensitive);
    GoalOf(ms, x, y, goal, caseSensitive);
    DistinctNames(ms);
    PendingApart(ms, x, y, goal, caseSensitive);
    NameOf(ms, i);
    MemberRun(ms, Last, i, from, to, caseSensitive);
    if !Replaced(Denote(from), Denote(to)) {
      EditsReach(ms[i].value, from, to, caseSensitive);
      var v := ApplyEdits(ms[i].value, CreateEdits([], from, to, caseSensitive), caseSensitive).root;
      ms' := ms[i := ms[i].(value := v)];
      UpdatedStep(ms, i, v, x, y, goal, caseSensitive);
    } else {
      MemberReplaced(ms, k, to, caseSensitive);
      ApplyOne(Object(ms), Edit(REPLACE, KeyPath(k), Some(to)), caseSensitive);
      ms' := RemoveAt(ms, i) + [Entry(k, Fresh(to))];
      FreshReaches(to);
      ReplacedStep(ms, i, Fresh(to), x, y, goal, caseSensitive);
    }
  }

  lemma NameOf(ms: seq<Member>, i: nat)
    requires Distinct(ms) && i < |ms|
    ensures ms[i].key in ToMap(ms)
  {
    MapOf(ms);
  }

  /** What is known of the pair at both heads. */
  lemma GoalOf(ms: seq<Member>, x: seq<Member>, y: seq<Member>, goal: map<Text, Value>, caseSensitive: bool := true)
    requires Pending(ms, x, y, goal, caseSensitive) && x != [] && y != [] && x[0].key == y[0].key
    ensures x[0].key in goal && goal[x[0].key] == Denote(y[0].value) && Ahead(ms, x[0], goal)
    ensures Unique(x[0].value) && Unique(y[0].value)
  {}

  lemma MemberRemoved(ms: seq<Member>, k: Text, caseSensitive: bool := true)
    requires Survives(k) && Leads(ms, k) && Distinct(ms) && FindKey(ms, k, true) < |ms|
    ensures ApplyEdit(Object(ms), Edit(REMOVE, KeyPath(k), None), caseSensitive) ==
      Applied(0, Object(RemoveAt(ms, FindKey(ms, k, true))))
  {
    RemoveActs(ms, Last, k, caseSensitive);
    DecodeUndoesEncode(k);
    LeadsFinds(ms, k);
  }

  lemma MemberAdded(ms: seq<Member>, k: Text, v: Json, caseSensitive: bool := true)
    requires Survives(k) && FindKey(ms, k, true) == |ms| && Alone(ms, k, caseSensitive)
    ensures ApplyEdit(Object(ms), Edit(ADD, KeyPath(k), Some(v)), caseSensitive) ==
      Applied(0, Object(ms + [Entry(k, Fresh(v))]))
  {
    hide FindKey, Fresh, AddBelow, ApplyEdit;
    AddActs(ms, Last, k, v, caseSensitive);
    DecodeUndoesEncode(k);
    AppendsNew(ms, k, Fresh(v), caseSensitive);
  }

  lemma MemberReplaced(ms: seq<Member>, k: Text, v: Json, caseSensitive: bool := true)
    requires Survives(k) && Leads(ms, k) && FindKey(ms, k, true) < |ms| && Distinct(ms) && Alone(ms, k, caseSensitive)
    ensures ApplyEdit(Object(ms), Edit(REPLACE, KeyPath(k), Some(v)), caseSensitive) ==
      Applied(0, Object(RemoveAt(ms, FindKey(ms, k, true)) + [Entry(k, Fresh(v))]))
  {
    hide Fresh, AddBelow, FindKey, RemoveAt, Leads, Survives, ApplyEdit, Alone;
    ReplaceActs(ms, Last, k, v, caseSensitive);
    DecodeUndoesEncode(k);
    LeadsFinds(ms, k);
    var i := FindKey(ms, k, true);
    StrcmpZero(k, ms[i].key);
    var rest := RemoveAt(ms, i);
    assert forall j | 0 <= j < |rest| :: rest[j].key != k by {
      forall j | 0 <= j < |rest|
        ensures rest[j].key != k
      {
        KeptMember(ms, i, j);
      }
    }
    FindKeyAbsent(rest, k);
    AloneStill(ms, i, k, caseSensitive);
    AppendsNew(RemoveAt(ms, i), k, Fresh(v), caseSensitive);
  }

  lemma AppendsNew(ms: seq<Member>, k: Text, v: Json, caseSensitive: bool := true)
    requires FindKey(ms, k, true) == |ms| && Alone(ms, k, caseSensitive)
    ensures AddBelow(Object(ms), k, v, caseSensitive) == Applied(0, Object(ms + [Entry(k, v)]))
  {
    hide FindKey;
    AloneFound(ms, k, caseSensitive);
    assert ms == [] ==> ms + [Entry(k, v)] == [Entry(k, v)];
  }

  lemma PendingUnique(ms: seq<Member>, x: seq<Member>, y: seq<Member>, goal: map<Text, Value>,
      caseSensitive: bool := true)
    requires Pending(ms, x, y, goal, caseSensitive)
    ensures UniqueMembers(ms)
  {}

  lemma EmptyMaps()
    ensures ToMap([]) == map[]
  {}

  lemma {:induction false} MembersReach(whole: Json, ms: seq<Member>, x: seq<Member>, y: seq<Member>,
      goal: map<Text, Value>, caseSensitive: bool := true)
    returns (ms': seq<Member>)
    requires forall m | m in x :: m.value < whole && Depth(m.value) < Depth(whole)
    requires Pending(ms, x, y, goal, caseSensitive)
    ensures AllGenerated(MemberEdits(whole, [], x, y, caseSensitive))
    ensures ApplyEdits(Object(ms), MemberEdits(whole, [], x, y, caseSensitive), caseSensitive) ==
      Applied(0, Object(ms'))
    ensures UniqueMembers(ms') && ToMap(ms') == Patched(ToMap(ms), ToMap(x), ToMap(y))
    decreases Depth(whole), 1, |x| + |y|
  {
    hide Pending, ListOk, Denote, Encode, Survives, ApplyEdit, HeadEdits, MemberEdits, MergeSort, ToMap, Unique,
      CompareStrings;
    MemberShape(whole, [], x, y, caseSensitive);
    MemberEditsUnfold(whole, [], x, y, caseSensitive);
    if x == [] && y == [] {
      ms' := ms;
      PendingUnique(ms, x, y, goal, caseSensitive);
      EmptyMaps();
    } else {
      hide Patched, UniqueMembers;
      var diff := Turn(x, y, caseSensitive);
      var x', y' := if diff <= 0 then x[1..] else x, if diff >= 0 then y[1..] else y;
      HeadShape(whole, [], x, y, diff, caseSensitive);
      MemberShape(whole, [], x', y', caseSensitive);
      var ms1 := HeadReaches(whole, ms, x, y, goal, caseSensitive);
      ms' := MembersReach(whole, ms1, x', y', goal, caseSensitive);
      ApplyConcat(Object(ms), HeadEdits(whole, [], x, y, diff, caseSensitive),
        MemberEdits(whole, [], x', y', caseSensitive), caseSensitive);
    }
  }

  lemma {:induction false} HeadReaches(whole: Json, ms: seq<Member>, x: seq<Member>, y: seq<Member>,
      goal: map<Text, Value>, caseSensitive: bool := true)
    returns (ms': seq<Member>)
    requires forall m | m in x :: m.value < whole && Depth(m.value) < Depth(whole)
    requires Pending(ms, x, y, goal, caseSensitive) && (x != [] || y != [])
    ensures var diff := Turn(x, y, caseSensitive);
      && AllGenerated(HeadEdits(whole, [], x, y, diff, caseSensitive))
      && ApplyEdits(Object(ms), HeadEdits(whole, [], x, y, diff, caseSensitive), caseSensitive) ==
        Applied(0, Object(ms'))
      && Stepped(ms, ms', x, y, if diff <= 0 then x[1..] else x, if diff >= 0 then y[1..] else y, goal, caseSensitive)
    decreases Depth(whole), 0, 1
  {
    hide CreateEdits, Encode, Stepped, Denote, ToMap, ApplyEdit, Survives, Leads, Fits, Ready, Replaced, Fresh, Unique;
    var diff := Turn(x, y, caseSensitive);
    HeadShape(whole, [], x, y, diff, caseSensitive);
    PendingApart(ms, x, y, goal, caseSensitive);
    TurnKey(x, y, caseSensitive);
    if diff == 0 {
      ms' := SharedMemberReaches(whole, ms, x, y, goal, caseSensitive);
    } else if diff < 0 {
      var k := x[0].key;
      var i := HeldFound(ms, x[0], goal, caseSensitive);
      DistinctNames(ms);
      MemberRemoved(ms, k, caseSensitive);
      assert [] + [SLASH] + Encode(k) == KeyPath(k);
      ApplyOne(Object(ms), Edit(REMOVE, KeyPath(k), None), caseSensitive);
      ms' := RemoveAt(ms, i);
      RemovedStep(ms, i, x, y, goal, caseSensitive);
    } else {
      var k, v := y[0].key, y[0].value;
      NewMember(ms, x, y, goal, caseSensitive);
      MemberAdded(ms, k, v, caseSensitive);
      assert [] + [SLASH] + Encode(k) == KeyPath(k);
      ApplyOne(Object(ms), Edit(ADD, KeyPath(k), Some(v)), caseSensitive);
      ms' := ms + [Entry(k, Fresh(v))];
      FreshReaches(v);
      AppendedStep(ms, Fresh(v), x, y, goal, caseSensitive);
    }
  }

  /** What is known of a member that only the goal has. */
  lemma NewMember(ms: seq<Member>, x: seq<Member>, y: seq<Member>, goal: map<Text, Value>, caseSensitive: bool)
    requires Pending(ms, x, y, goal, caseSensitive) && y != [] && y[0].key !in ToMap(x)
    ensures Survives(y[0].key) && FindKey(ms, y[0].key, true) == |ms| && Alone(ms, y[0].key, caseSensitive)
    ensures Unique(y[0].value)
  {
    hide Denote, ToMap, Survives, Leads, Fits, Ready, Replaced, Unique, Sorted, FindKey, Alone;
    DistinctNames(y);
    MapOf(y);
    DistinctNames(ms);
    LookupMap(ms, y[0].key);
    PendingApart(ms, x, y, goal, caseSensitive);
  }

  lemma ListOkSorted(ms: seq<Member>, caseSensitive: bool := true)
    requires UniqueMembers(ms)
    ensures ListOk(MergeSort(ms, caseSensitive), caseSensitive) && ToMap(MergeSort(ms, caseSensitive)) == ToMap(ms)
  {
    SortedMap(ms, caseSensitive);
    SortOrders(ms, caseSensitive);
  }

  lemma ReadyMembers(ms: seq<Member>)
    requires Ready(Object(ms))
    ensures UniqueMembers(ms) && forall i | 0 <= i < |ms| :: Ready(ms[i].value)
  {}

  /** At first everything is still to be done. */
  lemma PendingAtFirst(ms: seq<Member>, x: seq<Member>, y: seq<Member>, caseSensitive: bool := true)
    requires UniqueMembers(ms) && (forall i | 0 <= i < |ms| :: Ready(ms[i].value))
    requires ListOk(x, caseSensitive) && ListOk(y, caseSensitive) && ToMap(ms) == ToMap(x) &&
      Fits(Object(ms), VObject(ToMap(y)), caseSensitive)
    ensures Pending(ms, x, y, ToMap(y), caseSensitive)
  {
    hide Unique, Denote, ToMap, Sorted, Survives, Ready, Fits, Leads, Replaced, ListOk, Apart;
    ListOkUnique(x, caseSensitive);
    DistinctNames(ms);
    DistinctNames(x);
    MapOf(ms);
    MapOf(x);
    forall i | 0 <= i < |x|
      ensures Held(ms, x[i], ToMap(y), caseSensitive)
    {
      var a :| 0 <= a < |ms| && ms[a].key == x[i].key;
      FitsMember(ms, a, ToMap(y), caseSensitive);
      assert Holds(ms, a, x[i], ToMap(y), caseSensitive);
    }
    FitsNew(ms, ToMap(y), caseSensitive);
  }

  lemma ListOkUnique(x: seq<Member>, caseSensitive: bool := true)
    requires ListOk(x, caseSensitive)
    ensures UniqueMembers(x)
  {}

  lemma FitsNew(ms: seq<Member>, goal: map<Text, Value>, caseSensitive: bool := true)
    requires Fits(Object(ms), VObject(goal), caseSensitive)
    ensures Apart(ms, goal, caseSensitive) && forall k | k in goal && k !in ToMap(ms) :: Survives(k)
  {}

  lemma FitsMember(ms: seq<Member>, a: nat, goal: map<Text, Value>, caseSensitive: bool := true)
    requires Fits(Object(ms), VObject(goal), caseSensitive) && a < |ms|
    ensures if ms[a].key in goal &&
      !Replaced(Denote(ms[a].value), goal[ms[a].key]) then Fits(ms[a].value, goal[ms[a].key], caseSensitive)
      else Survives(ms[a].key) && Leads(ms, ms[a].key)
  {}

  lemma {:induction false} ObjectReaches(ms: seq<Member>, from: Json, to: Json, caseSensitive: bool := true)
    requires from.Object? && to.Object?
    requires Ready(Object(ms)) && Unique(from) && Unique(to) && ToMap(ms) == ToMap(from.members)
    requires Fits(Object(ms), VObject(ToMap(to.members)), caseSensitive)
    ensures var x, y := MergeSort(from.members, caseSensitive), MergeSort(to.members, caseSensitive);
      && (forall m | m in x :: m.value < from)
      && AllGenerated(MemberEdits(from, [], x, y, caseSensitive))
      && Reaches(ApplyEdits(Object(ms), MemberEdits(from, [], x, y, caseSensitive), caseSensitive), to)
    decreases Depth(from), 1, |from.members| + |to.members| + 1
  {
    hide MemberEdits, ApplyEdits, MergeSort, Fits, Pending, ListOk, Replaced, Ready, AllGenerated;
    var x, y := MergeSort(from.members, caseSensitive), MergeSort(to.members, caseSensitive);
    SortPermutes(from.members, caseSensitive);
    SortPermutes(to.members, caseSensitive);
    PermutationLength(from.members, x);
    PermutationLength(to.members, y);
    forall m | m in x
      ensures m.value < from && Depth(m.value) < Depth(from)
    {
      SameElements(from.members, x, m);
    }
    ListOkSorted(from.members, caseSensitive);
    ListOkSorted(to.members, caseSensitive);
    ReadyMembers(ms);
    PendingAtFirst(ms, x, y, caseSensitive);
    var ms' := MembersReach(from, ms, x, y, ToMap(y), caseSensitive);
    assert Patched(ToMap(ms), ToMap(x), ToMap(y)) == ToMap(y);
  }

  /**
   RFC 6902, section 4: patches generated from `from` to `to` and applied to a copy of
   `from` return success and leave a tree that equals `to`. The copy may list its members
   in any order, as generating the patches sorts the members of `from`.
   */
  lemma RoundTrip(copy: Json, from: Json, to: Json, caseSensitive: bool := true)
    requires Ready(copy) && Unique(from) && Unique(to) && Denote(copy) == Denote(from) &&
      Fits(copy, Denote(to), caseSensitive)
    ensures Reaches(ApplyPatches(copy, GeneratePatches(from, to, caseSensitive), caseSensitive), to)
  {
    hide CreateEdits, ApplyEdits, ApplyAll, Fits, Unique, Denote, ComposeAll;
    EditsReach(copy, from, to, caseSensitive);
    ComposeAllApplies(copy, CreateEdits([], from, to, caseSensitive), caseSensitive);
  }
}
