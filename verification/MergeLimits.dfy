/** Where names that differ in case, or sort otherwise without it, mislead generated merge patches, and exactly where
 they do not. */
module MergeLimits {
  import opened Basics
  import opened Strings
  import opened Sorting
  import opened Json
  import opened CompareProofs
  import opened Folding
  import opened Merge
  import opened MergeWalks
  import opened MergeProofs

  const SMALL_A: Text := [97]
  const CAPITAL_B: Text := [66]

  const ONLY: set<Text> := {CAPITAL_B}
  const BOTH: set<Text> := {SMALL_A, CAPITAL_B}

  lemma Orders()
    ensures CompareStrings(SMALL_A, CAPITAL_B, false) < 0 < CompareStrings(CAPITAL_B, SMALL_A, false)
    ensures Strcmp(CAPITAL_B, SMALL_A) < 0 && CompareStrings(CAPITAL_B, CAPITAL_B, false) == 0
    ensures ToldApart(BOTH, false) && SMALL_A != CAPITAL_B
  {
    assert Fold(SMALL_A) == [97] && Fold(CAPITAL_B) == [98];
    assert Strcmp([97], [98]) < 0 < Strcmp([98], [97]);
    StrcmpZero([98], [98]);
  }

  /** a comes before B without regard to case, but after it for strcmp, and holds up the list that has it. */
  lemma HeldUpByA()
    ensures Peaks(ONLY, CAPITAL_B, false) == {CAPITAL_B} && Peaks(BOTH, CAPITAL_B, false) == {SMALL_A, CAPITAL_B}
    ensures ArrivalAt(BOTH, ONLY, CAPITAL_B, false) == ToFirst && ArrivalAt(ONLY, BOTH, CAPITAL_B, false) == FromFirst
  {
    hide CompareStrings, Strcmp;
    Orders();
    SelfCompare(SMALL_A, false);
    assert forall d | d in BOTH :: d == SMALL_A || d == CAPITAL_B;
    assert Peak(ONLY, CAPITAL_B, CAPITAL_B, false);
    assert Peak(BOTH, SMALL_A, CAPITAL_B, false) && Peak(BOTH, CAPITAL_B, CAPITAL_B, false);
    var p, q := Peaks(ONLY, CAPITAL_B, false), Peaks(BOTH, CAPITAL_B, false);
    assert p - q == {} && q - p == {SMALL_A};
    assert SMALL_A in q - p;
  }

  const HAS_BOTH: Value := VObject(map[SMALL_A := VTrue, CAPITAL_B := VTrue])
  const HAS_B: Value := VObject(map[CAPITAL_B := VTrue])
  const GAINS_A: Value := VObject(map[SMALL_A := VTrue, CAPITAL_B := VFalse])

  lemma Misled()
    ensures Walkable(HAS_BOTH, HAS_B, false) && Fillable(HAS_BOTH, HAS_B, false, false)
    ensures NullSafe(HAS_BOTH, HAS_B) && !Kept(HAS_BOTH, HAS_B, false)
  {
    hide CompareStrings, Strcmp, ArrivalAt;
    Orders();
    HeldUpByA();
    assert HAS_BOTH.members.Keys == BOTH && HAS_B.members.Keys == ONLY && BOTH + ONLY == BOTH;
    assert CAPITAL_B in HAS_BOTH.members && CAPITAL_B in HAS_B.members;
  }

  /**
   { "a": true, "B": true } to { "B": true }: B is taken from the goal first, so the patch
   adds it, removes a, and then removes B, which both objects have.
   */
  lemma CapitalsMislead(copy: Json, from: Json, to: Json)
    requires Unique(copy) && Appendable(copy) && Unique(from) && Denote(copy) == Denote(from) == HAS_BOTH
    requires Unique(to) && Denote(to) == HAS_B
    ensures Denote(Merged(copy, GenerateMergePatch(from, to, false), false)) != Denote(to)
    ensures NullSafe(Denote(from), Denote(to))
  {
    hide GenerateMergePatch, Merged, Walkable, Fillable, Kept, NullSafe;
    Misled();
    MergeRoundTrip(copy, from, to, false);
  }

  lemma Passed()
    ensures Walkable(HAS_B, GAINS_A, false) && Fillable(HAS_B, GAINS_A, false, false)
    ensures NullSafe(HAS_B, GAINS_A) && Kept(HAS_B, GAINS_A, false) && Noticed(HAS_B, GAINS_A, false)
    ensures !AllInStep(HAS_B, GAINS_A, false)
  {
    hide CompareStrings, Strcmp, ArrivalAt;
    Orders();
    HeldUpByA();
    assert HAS_B.members.Keys == ONLY && GAINS_A.members.Keys == BOTH && ONLY + BOTH == BOTH;
    assert CAPITAL_B in HAS_B.members && CAPITAL_B in GAINS_A.members;
  }

  /**
   { "B": true } to { "a": true, "B": false }: B is taken from the source first, so the
   patch removes it and adds it again after a. It names B twice and still leads to its goal.
   */
  lemma CapitalsPassed(copy: Json, from: Json, to: Json)
    requires Unique(copy) && Appendable(copy) && Unique(from) && Denote(copy) == Denote(from) == HAS_B
    requires Unique(to) && Denote(to) == GAINS_A
    ensures var p := GenerateMergePatch(from, to, false);
      p.Some? && !Unique(p.value) && Denote(MergePatch(Some(copy), p.value, false)) == Denote(to)
  {
    hide GenerateMergePatch, MergePatch, Walkable, Fillable, Kept, Noticed, NullSafe, AllInStep, Unique;
    Passed();
    GenerateDenotes(from, to, false);
    MergeRoundTrip(copy, from, to, false);
    assert HAS_B.members != GAINS_A.members by {
      assert CAPITAL_B in HAS_B.members && CAPITAL_B in GAINS_A.members;
    }
  }

  // ----- when the names of a generated patch are in order

  /**
   The guard on the order of names is exact: where the names in each of two objects are told
   apart, the patch that is generated names each member once if and only if they are in step.
   */
  lemma PatchNamesExactly(from: Json, to: Json, caseSensitive: bool)
    requires from.Object? && to.Object? && Unique(from) && Unique(to)
    requires ToldApart(ToMap(from.members).Keys, caseSensitive) && ToldApart(ToMap(to.members).Keys, caseSensitive)
    ensures var p := GenerateMergePatch(from, to, caseSensitive);
      (p.Some? ==> p.value.Object? && Distinct(p.value.members)) <==>
        InStep(ToMap(from.members), ToMap(to.members), caseSensitive)
  {
    hide ToMap, Under, GenerateMembers, GenerateMergePatch, PatchMembers, Change, ArrivalAt, Unique;
    var f, t := ToMap(from.members), ToMap(to.members);
    var ms := PatchMembers(from, to, caseSensitive);
    var x, y := SortedLists(from, to, caseSensitive);
    forall k
      ensures AtMostOne(ms, k) <==>
        (k in f && k in t ==> ArrivalAt(f.Keys, t.Keys, k, caseSensitive).Together?)
    {
      GeneratedUnder(Depth(from), x, y, k, caseSensitive);
      UnderMeans(x, k);
      UnderMeans(y, k);
    }
    DistinctUnder(ms);
  }

  // ----- names without capitals

  ghost predicate NoCapitals(v: Value)
    decreases v
  {
    match v
    case VArray(s) => forall i | 0 <= i < |s| :: NoCapitals(s[i])
    case VObject(m) => forall k | k in m :: NoUpper(k) && NoCapitals(m[k])
    case _ => true
  }

  lemma LowerNames(names: set<Text>, caseSensitive: bool)
    requires forall k | k in names :: NoUpper(k)
    ensures ToldApart(names, caseSensitive)
    ensures forall a, b | a in names && b in names :: CompareStrings(a, b, caseSensitive) == Strcmp(a, b)
  {
    forall a, b | a in names && b in names
      ensures Fold(a) == a && Fold(b) == b
    {
      FoldIdentity(a);
      FoldIdentity(b);
    }
  }

  /** Folding leaves such data alone. */
  lemma {:induction false} LowerFolded(v: Value)
    requires NoCapitals(v)
    ensures ApartIn(v, false) && FoldValue(v) == v
    decreases v
  {
    match v
    case VArray(s) =>
      forall i | 0 <= i < |s|
        ensures ApartIn(s[i], false) && FoldValue(s[i]) == s[i]
      {
        LowerFolded(s[i]);
      }
      assert FoldValue(v).items == s;
    case VObject(m) =>
      LowerNames(m.Keys, false);
      forall k | k in m
        ensures Fold(k) == k && ApartIn(m[k], false) && FoldValue(m[k]) == m[k]
      {
        FoldIdentity(k);
        LowerFolded(m[k]);
      }
      FoldedParts(m);
      var x := FoldValue(v).members;
      assert x.Keys == m.Keys;
      assert x == m;
    case _ =>
  }

  /** Applying a patch to data without capitals asks nothing more. */
  lemma {:induction false} LowerMergeable(target: Value, patch: Value, caseSensitive: bool)
    requires NoCapitals(target) && NoCapitals(patch)
    ensures Mergeable(target, patch, caseSensitive)
    decreases patch
  {
    if patch.VObject? {
      var base := if target.VObject? then target.members else map[];
      LowerNames(base.Keys + patch.members.Keys, caseSensitive);
      forall k | k in patch.members && !patch.members[k].VNull?
        ensures Mergeable(if k in base then base[k] else VNull, patch.members[k], caseSensitive)
      {
        LowerMergeable(if k in base then base[k] else VNull, patch.members[k], caseSensitive);
      }
    }
  }

  lemma {:induction false} LowerNoticed(u: Value, v: Value, caseSensitive: bool)
    requires NoCapitals(u) && NoCapitals(v) && Overlooks(u, v, caseSensitive)
    ensures u == v
    decreases u
  {
    hide FoldValue, ApartIn;
    LowerFolded(u);
    LowerFolded(v);
    if u.VObject? && v.VObject? && u.members.Keys == v.members.Keys &&
      forall k | k in u.members :: Overlooks(u.members[k], v.members[k], false)
    {
      forall k | k in u.members
        ensures u.members[k] == v.members[k]
      {
        LowerNoticed(u.members[k], v.members[k], false);
      }
      assert u.members == v.members;
    }
  }

  /** All that is asked of a pair of values. */
  ghost predicate Smooth(u: Value, v: Value, caseSensitive: bool, merging: bool) {
    && Walkable(u, v, caseSensitive) && AllInStep(u, v, caseSensitive) && Fillable(u, v, caseSensitive, merging)
    && Noticed(u, v, caseSensitive)
  }

  /** ... and of the values under a name that two objects share. */
  ghost predicate SmoothUnder(f: map<Text, Value>, t: map<Text, Value>, k: Text, caseSensitive: bool, merging: bool)
    requires k in f && k in t
  {
    && ArrivalAt(f.Keys, t.Keys, k, caseSensitive).Together? && ApartIn(f[k], false) && ApartIn(t[k], false)
    && Smooth(f[k], t[k], false, merging) && (Overlooks(f[k], t[k], caseSensitive) ==> f[k] == t[k])
  }

  lemma SmoothObjects(f: map<Text, Value>, t: map<Text, Value>, caseSensitive: bool, merging: bool)
    requires ToldApart(f.Keys, caseSensitive) && ToldApart(t.Keys, caseSensitive) && ToldApart(f.Keys + t.Keys, merging)
    requires forall k | k in t :: Mergeable(VNull, t[k], merging)
    requires forall k | k in f && k in t :: SmoothUnder(f, t, k, caseSensitive, merging)
    ensures Smooth(VObject(f), VObject(t), caseSensitive, merging)
  {
    hide ArrivalAt, Mergeable, ToldApart, FoldValue, ApartIn, Overlooks;
    assert Walkable(VObject(f), VObject(t), caseSensitive) by {
      hide Fillable, AllInStep, Noticed;
    }
    assert AllInStep(VObject(f), VObject(t), caseSensitive) by {
      hide Fillable, Walkable, Noticed;
    }
    assert Noticed(VObject(f), VObject(t), caseSensitive) by {
      hide Fillable, Walkable, AllInStep;
    }
    assert Fillable(VObject(f), VObject(t), caseSensitive, merging) by {
      hide Noticed, Walkable, AllInStep;
    }
  }

  /** Where no name has a capital, names are told apart and in step and no difference is overlooked, in either mode. */
  lemma {:induction false} LowerInStep(f: Value, t: Value, caseSensitive: bool, merging: bool)
    requires NoCapitals(f) && NoCapitals(t)
    ensures Smooth(f, t, caseSensitive, merging)
    decreases f
  {
    if f.VObject? && t.VObject? {
      hide ArrivalAt, Mergeable, ToldApart, FoldValue, ApartIn, Overlooks, Smooth;
      LowerNames(f.members.Keys, caseSensitive);
      LowerNames(t.members.Keys, caseSensitive);
      LowerNames(f.members.Keys + t.members.Keys, caseSensitive);
      LowerNames(f.members.Keys + t.members.Keys, merging);
      SortedByStrcmp(f.members, t.members, caseSensitive);
      forall k | k in t.members
        ensures Mergeable(VNull, t.members[k], merging)
      {
        LowerMergeable(VNull, t.members[k], merging);
      }
      forall k | k in f.members && k in t.members
        ensures SmoothUnder(f.members, t.members, k, caseSensitive, merging)
      {
        LowerFolded(f.members[k]);
        LowerFolded(t.members[k]);
        if Overlooks(f.members[k], t.members[k], caseSensitive) {
          LowerNoticed(f.members[k], t.members[k], caseSensitive);
        }
        LowerInStep(f.members[k], t.members[k], false, merging);
      }
      SmoothObjects(f.members, t.members, caseSensitive, merging);
    } else {
      hide Mergeable;
      LowerMergeable(VNull, t, merging);
    }
  }

  /**
   The round trip in its plain form, in either mode: for names without capitals and a goal
   without null members outside arrays, a generated patch always leads to the goal.
   */
  lemma LowerRoundTrip(copy: Json, from: Json, to: Json, caseSensitive: bool)
    requires Unique(copy) && Appendable(copy) && Unique(from) && Unique(to) && Denote(copy) == Denote(from)
    requires NoCapitals(Denote(from)) && NoCapitals(Denote(to)) && NoNullMember(Denote(to))
    ensures Denote(Merged(copy, GenerateMergePatch(from, to, caseSensitive), caseSensitive)) == Denote(to)
  {
    hide Merged, GenerateMergePatch, NoCapitals, NoNullMember, NullSafe, Walkable, Fillable, Kept, Noticed, AllInStep;
    LowerInStep(Denote(from), Denote(to), caseSensitive, caseSensitive);
    InStepKeeps(Denote(from), Denote(to), caseSensitive);
    NoNullIsSafe(Denote(from), Denote(to));
    MergeRoundTrip(copy, from, to, caseSensitive);
  }
}
