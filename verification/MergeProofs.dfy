/** `merge_patch` is the RFC's function, and generated merge patches are undone by it as far as null allows. */
module MergeProofs {
  import opened Basics
  import opened Strings
  import opened Sorting
  import opened Tails
  import opened Json
  import opened Compare
  import opened CompareProofs
  import opened Folding
  import opened Merge
  import opened MergeWalks

  // ----- applying

  ghost function Target(t: Option<Json>): Value {
    if t.Some? then Denote(t.value) else VNull
  }

  ghost function MergedMap(base: map<Text, Value>, patch: map<Text, Value>): map<Text, Value> {
    map k | k in base.Keys + patch.Keys && !(k in patch && patch[k].VNull?) ::
      if k in patch then RfcMerge(if k in base then base[k] else VNull, patch[k]) else base[k]
  }

  lemma MergedNull(base: map<Text, Value>, patch: map<Text, Value>, k: Text)
    requires k !in patch
    ensures MergedMap(base - {k}, patch) == MergedMap(base, patch[k := VNull])
  {}

  lemma MergedSet(base: map<Text, Value>, patch: map<Text, Value>, k: Text, v: Value)
    requires k !in patch && !v.VNull?
    ensures MergedMap(base[k := RfcMerge(if k in base then base[k] else VNull, v)], patch) ==
      MergedMap(base, patch[k := v])
  {}

  lemma DenoteNull(j: Json)
    ensures Denote(j).VNull? <==> j.Null?
    ensures Denote(j).VObject? <==> j.Object?
  {}

  ghost predicate AppendableMembers(ms: seq<Member>) {
    forall i | 0 <= i < |ms| :: Appendable(ms[i].value)
  }

  /** The member list without the one called k, and the value that one had. */
  lemma DropMember(ms: seq<Member>, k: Text, names: set<Text>, caseSensitive: bool)
    requires UniqueMembers(ms) && AppendableMembers(ms) && ToldApart(names, caseSensitive) && k in names
    requires ToMap(ms).Keys <= names
    ensures var i := FindKey(ms, k, caseSensitive);
      var others := if i < |ms| then RemoveAt(ms, i) else ms;
      && UniqueMembers(others) && AppendableMembers(others) && ToMap(others) == ToMap(ms) - {k}
      && (k in ToMap(ms) <==> i < |ms|)
      && (i < |ms| ==> ToMap(ms)[k] == Denote(ms[i].value) && Unique(ms[i].value) && Appendable(ms[i].value))
  {
    hide ToMap, Denote, Unique, Appendable;
    DistinctNames(ms);
    MapOf(ms);
    FindKeyModes(ms, k, names, caseSensitive);
    LookupMap(ms, k);
    var i := FindKey(ms, k, true);
    if i < |ms| {
      RemovedMap(ms, i);
      forall j | 0 <= j < |ms| - 1
        ensures Appendable(RemoveAt(ms, i)[j].value)
      {
        assert RemoveAt(ms, i)[j] == ms[if j < i then j else j + 1];
      }
    }
  }

  /** RFC 7396, section 2: the library's function and the RFC's agree on the data. */
  lemma {:induction false} MergeIsRfc(target: Option<Json>, patch: Json, caseSensitive: bool)
    requires Unique(patch) && Mergeable(Target(target), Denote(patch), caseSensitive)
    requires target.Some? ==> Unique(target.value) && Appendable(target.value)
    ensures var r := MergePatch(target, patch, caseSensitive);
      Unique(r) && Appendable(r) && Denote(r) == RfcMerge(Target(target), Denote(patch))
    decreases patch, 1
  {
    if patch.Object? {
      var base := if target.Some? && target.value.Object? then target.value.members else [];
      if target.Some? {
        DenoteNull(target.value);
      }
      assert (if Target(target).VObject? then Target(target).members else map[]) == ToMap(base);
      MergeMembersIsRfc(base, patch.members, caseSensitive);
    } else {
      DenoteNull(patch);
      FreshMeans(patch);
    }
  }

  /** What the members of a patch ask of the object they are merged into. */
  ghost predicate MapsMergeable(base: map<Text, Value>, patch: map<Text, Value>, caseSensitive: bool) {
    && ToldApart(base.Keys + patch.Keys, caseSensitive)
    && forall k | k in patch && !patch[k].VNull? ::
      Mergeable(if k in base then base[k] else VNull, patch[k], caseSensitive)
  }

  lemma {:induction false} MergeMembersIsRfc(ms: seq<Member>, ps: seq<Member>, caseSensitive: bool)
    requires UniqueMembers(ms) && AppendableMembers(ms) && UniqueMembers(ps)
    requires MapsMergeable(ToMap(ms), ToMap(ps), caseSensitive)
    ensures var r := MergeMembers(ms, Last, ps, caseSensitive);
      UniqueMembers(r.members) && Appendable(r) && ToMap(r.members) == MergedMap(ToMap(ms), ToMap(ps))
    decreases ps, 0
  {
    hide MergeMember, UniqueMembers, ToMap, Denote, AppendableMembers, MapsMergeable;
    if ps == [] {
      NoMembers(ms);
    } else {
      HeadMap(ps);
      FirstMember(ms, ps, caseSensitive);
      MergeMemberIsRfc(ms, ps[0], ToMap(ms).Keys + ToMap(ps).Keys, caseSensitive);
      var j := MergeMember(ms, Last, ps[0], caseSensitive);
      MergeMembersIsRfc(j.members, ps[1..], caseSensitive);
      MergedOne(ToMap(ms), ToMap(ps[1..]), ps[0].key, Denote(ps[0].value));
    }
  }

  lemma NoMembers(ms: seq<Member>)
    requires UniqueMembers(ms) && AppendableMembers(ms)
    ensures Appendable(Object(ms)) && MergedMap(ToMap(ms), ToMap([])) == ToMap(ms)
  {
    assert MergedMap(ToMap(ms), map[]) == ToMap(ms);
  }

  /** The first member of the patch, and what merging it leaves to ask. */
  lemma FirstMember(ms: seq<Member>, ps: seq<Member>, caseSensitive: bool)
    requires ps != [] && UniqueMembers(ps) && MapsMergeable(ToMap(ms), ToMap(ps), caseSensitive)
    ensures var k, v := ps[0].key, Denote(ps[0].value);
      && Unique(ps[0].value) && k in ToMap(ps) && ToMap(ps) == ToMap(ps[1..])[k := v]
      && ToldApart(ToMap(ms).Keys + ToMap(ps).Keys, caseSensitive)
      && (!v.VNull? ==> Mergeable(if k in ToMap(ms) then ToMap(ms)[k] else VNull, v, caseSensitive))
      && MapsMergeable(MergedOnce(ToMap(ms), k, v), ToMap(ps[1..]), caseSensitive)
  {
    hide Mergeable, RfcMerge;
    HeadMap(ps);
    var k, v := ps[0].key, Denote(ps[0].value);
    var base, patch, rest := ToMap(ms), ToMap(ps), ToMap(ps[1..]);
    assert patch == rest[k := v];
    var base' := MergedOnce(base, k, v);
    assert base'.Keys + rest.Keys <= base.Keys + patch.Keys;
    forall l | l in rest && !rest[l].VNull?
      ensures Mergeable(if l in base' then base'[l] else VNull, rest[l], caseSensitive)
    {
      assert l != k && patch[l] == rest[l];
      assert (if l in base' then base'[l] else VNull) == if l in base then base[l] else VNull;
    }
  }

  ghost function MergedOnce(base: map<Text, Value>, k: Text, v: Value): map<Text, Value> {
    if v.VNull? then base - {k} else base[k := RfcMerge(if k in base then base[k] else VNull, v)]
  }

  lemma MergedOne(base: map<Text, Value>, patch: map<Text, Value>, k: Text, v: Value)
    requires k !in patch
    ensures MergedMap(MergedOnce(base, k, v), patch) == MergedMap(base, patch[k := v])
  {
    if v.VNull? {
      MergedNull(base, patch, k);
    } else {
      MergedSet(base, patch, k, v);
    }
  }

  lemma {:induction false} MergeMemberIsRfc(ms: seq<Member>, p: Member, names: set<Text>, caseSensitive: bool)
    requires UniqueMembers(ms) && AppendableMembers(ms) && Unique(p.value)
    requires ToldApart(names, caseSensitive) && p.key in names && ToMap(ms).Keys <= names
    requires !p.value.Null? ==>
      Mergeable(if p.key in ToMap(ms) then ToMap(ms)[p.key] else VNull, Denote(p.value), caseSensitive)
    ensures var r := MergeMember(ms, Last, p, caseSensitive);
      && UniqueMembers(r.members) && AppendableMembers(r.members) && r.tail.Last?
      && ToMap(r.members) == MergedOnce(ToMap(ms), p.key, Denote(p.value))
    decreases p, 0
  {
    hide UniqueMembers, AppendableMembers, Denote, MergePatch, RfcMerge, Unique, ToMap, FindKey, Mergeable, RemoveAt;
    var i := FindKey(ms, p.key, caseSensitive);
    DropMember(ms, p.key, names, caseSensitive);
    DenoteNull(p.value);
    LastStays(ms, i);
    if !p.value.Null? {
      var previous := if i < |ms| then Some(ms[i].value) else None;
      var others := if i < |ms| then RemoveAt(ms, i) else ms;
      MergeIsRfc(previous, p.value, caseSensitive);
      var m := Entry(p.key, MergePatch(previous, p.value, caseSensitive));
      LinkedLast(others, m);
    }
  }

  lemma LastStays(ms: seq<Member>, i: nat)
    ensures i < |ms| ==> RemoveTail(|ms|, Last, i) == Last
  {}

  lemma LinkedLast(ms: seq<Member>, m: Member)
    requires UniqueMembers(ms) && AppendableMembers(ms) && m.key !in ToMap(ms) && Unique(m.value) && Appendable(m.value)
    ensures Append(ms, Last, m) == ms + [m] && AppendTail(ms, Last) == Last
    ensures UniqueMembers(ms + [m]) && AppendableMembers(ms + [m])
    ensures ToMap(ms + [m]) == ToMap(ms)[m.key := Denote(m.value)]
  {
    hide ToMap, Denote, Unique, Appendable;
    AppendedMap(ms, m);
    assert ms == [] ==> ms + [m] == [m];
  }

  /**
   The guard is the lookup's: a member of a patch that carries no object is merged as the
   RFC says if and only if the lookup in the chosen mode finds what the exact one finds.
   */
  lemma MergedExactly(ms: seq<Member>, p: Member, caseSensitive: bool)
    requires UniqueMembers(ms) && AppendableMembers(ms) && Unique(p.value) && !p.value.Object?
    ensures Denote(MergeMember(ms, Last, p, caseSensitive)) ==
            VObject(MergedOnce(ToMap(ms), p.key, Denote(p.value))) <==>
      FindKey(ms, p.key, caseSensitive) == FindKey(ms, p.key, true)
  {
    hide UniqueMembers, AppendableMembers, Denote, Unique, ToMap, FindKey, RemoveAt, Append, MergeMember;
    DistinctNames(ms);
    MapOf(ms);
    LookupMap(ms, p.key);
    FirstFound(ms, p.key, caseSensitive);
    var r := MergeMember(ms, Last, p, caseSensitive);
    MergedKeys(ms, p, caseSensitive);
    ObjectMeans(r);
    var i, k := FindKey(ms, p.key, caseSensitive), p.key;
    var goal := MergedOnce(ToMap(ms), k, Denote(p.value));
    if i < FindKey(ms, k, true) {
      assert ms[i].key in goal && ms[i].key !in ToMap(r.members);
    }
  }

  /** What merging such a member does, whatever the lookup finds. */
  lemma MergedKeys(ms: seq<Member>, p: Member, caseSensitive: bool)
    requires UniqueMembers(ms) && Unique(p.value) && !p.value.Object?
    ensures var i, r := FindKey(ms, p.key, caseSensitive), MergeMember(ms, Last, p, caseSensitive).members;
      && (i < |ms| && ms[i].key != p.key ==> ms[i].key !in ToMap(r))
      && ((if i < |ms| then ms[i].key == p.key else p.key !in ToMap(ms)) ==>
        ToMap(r) == MergedOnce(ToMap(ms), p.key, Denote(p.value)))
  {
    hide UniqueMembers, Denote, Unique, ToMap, FindKey, RemoveAt, Append;
    var i, k, m := FindKey(ms, p.key, caseSensitive), p.key, Entry(p.key, Fresh(p.value));
    DenoteNull(p.value);
    FreshMeans(p.value);
    LastStays(ms, i);
    var others := if i < |ms| then RemoveAt(ms, i) else ms;
    if i < |ms| {
      RemovedMap(ms, i);
    }
    assert k !in ToMap(ms) ==> ToMap(ms) - {k} == ToMap(ms);
    assert (ToMap(ms) - {k})[k := Denote(p.value)] == ToMap(ms)[k := Denote(p.value)];
    LastAppend(others, m);
    AppendKeys(others, m);
    if k !in ToMap(others) {
      AppendedMap(others, m);
    }
  }

  lemma LastAppend(ms: seq<Member>, m: Member)
    ensures Append(ms, Last, m) == ms + [m]
  {
    assert ms == [] ==> ms + [m] == [m];
  }

  lemma {:induction false} AppendKeys(ms: seq<Member>, m: Member)
    ensures ToMap(ms + [m]).Keys == ToMap(ms).Keys + {m.key}
  {
    if ms == [] {
      assert ms + [m] == [m] && [m][1..] == [];
    } else {
      assert (ms + [m])[1..] == ms[1..] + [m];
      AppendKeys(ms[1..], m);
    }
  }

  /** The exact lookup never stops earlier, and another member that is found has another name. */
  lemma FirstFound(ms: seq<Member>, k: Text, caseSensitive: bool)
    requires Distinct(ms)
    ensures var i, j := FindKey(ms, k, caseSensitive), FindKey(ms, k, true);
      i <= j && (i < j ==> i < |ms| && ms[i].key != k)
  {
    var i, j := FindKey(ms, k, caseSensitive), FindKey(ms, k, true);
    StrcmpZero(Fold(k), Fold(k));
    if j < |ms| {
      StrcmpZero(k, ms[j].key);
    }
    if i < j {
      StrcmpZero(k, ms[i].key);
    }
  }

  // ----- applying twice

  /** RFC 7396: applying a patch again changes nothing. */
  lemma {:induction false} RfcMergeIdempotent(target: Value, patch: Value)
    ensures RfcMerge(RfcMerge(target, patch), patch) == RfcMerge(target, patch)
    decreases patch
  {
    if patch.VObject? {
      var base := if target.VObject? then target.members else map[];
      var once := RfcMerge(target, patch).members;
      forall k | k in patch.members
        ensures RfcMerge(RfcMerge(if k in base then base[k] else VNull, patch.members[k]), patch.members[k])
          == RfcMerge(if k in base then base[k] else VNull, patch.members[k])
      {
        RfcMergeIdempotent(if k in base then base[k] else VNull, patch.members[k]);
      }
      assert RfcMerge(RfcMerge(target, patch), patch).members == once;
    }
  }

  lemma {:induction false} MergeableAgain(target: Value, patch: Value, caseSensitive: bool)
    requires Mergeable(target, patch, caseSensitive)
    ensures Mergeable(RfcMerge(target, patch), patch, caseSensitive)
    decreases patch
  {
    if patch.VObject? {
      var base := if target.VObject? then target.members else map[];
      var once := RfcMerge(target, patch).members;
      assert once.Keys + patch.members.Keys <= base.Keys + patch.members.Keys;
      forall k | k in patch.members && !patch.members[k].VNull?
        ensures Mergeable(if k in once then once[k] else VNull, patch.members[k], caseSensitive)
      {
        MergeableAgain(if k in base then base[k] else VNull, patch.members[k], caseSensitive);
      }
    }
  }

  lemma MergeTwice(target: Json, patch: Json, caseSensitive: bool)
    requires Unique(patch) && Unique(target) && Appendable(target)
    requires Mergeable(Denote(target), Denote(patch), caseSensitive)
    ensures var once := MergePatch(Some(target), patch, caseSensitive);
      Denote(MergePatch(Some(once), patch, caseSensitive)) == Denote(once)
  {
    MergeableAgain(Denote(target), Denote(patch), caseSensitive);
    MergeIsRfc(Some(target), patch, caseSensitive);
    MergeIsRfc(Some(MergePatch(Some(target), patch, caseSensitive)), patch, caseSensitive);
    RfcMergeIdempotent(Denote(target), Denote(patch));
  }

  // ----- generating

  ghost function PatchMap(f: map<Text, Value>, t: map<Text, Value>, caseSensitive: bool): map<Text, Value> {
    map k | k in f.Keys + t.Keys && !(k in f && k in t && Overlooks(f[k], t[k], caseSensitive)) ::
      if k !in t then VNull else if k !in f then t[k] else ValuePatch(f[k], t[k], false)
  }

  /**
   What is generated, whatever the order of names: no patch if and only if the objects have
   the same names and no difference is seen under any of them; and a patch names each
   member once, at every depth, if and only if names are in step everywhere, and then it
   says what the difference of the data is.
   */
  lemma {:induction false} GenerateDenotes(from: Json, to: Json, caseSensitive: bool)
    requires Unique(from) && Unique(to) && Walkable(Denote(from), Denote(to), caseSensitive)
    ensures var p := GenerateMergePatch(from, to, caseSensitive);
      && (p.None? <==>
        from.Object? && to.Object? && SameMaps(ToMap(from.members), ToMap(to.members), caseSensitive))
      && (p.Some? ==>
        && (p.value.Null? <==> to.Null?)
        && (Unique(p.value) <==> AllInStep(Denote(from), Denote(to), caseSensitive))
        && (Unique(p.value) ==> Denote(p.value) == ValuePatch(Denote(from), Denote(to), caseSensitive)))
    decreases Depth(from), 1
  {
    DenoteNull(from);
    DenoteNull(to);
    if from.Object? && to.Object? {
      hide UniqueMembers, ToMap, MergeSort, GenerateMembers, ArrivalAt, UniqueAt, Under, FoldValue;
      var f, t := ToMap(from.members), ToMap(to.members);
      var ms := PatchMembers(from, to, caseSensitive);
      forall k
        ensures NameGenerated(ms, f, t, k, caseSensitive)
      {
        GeneratedName(from, to, k, caseSensitive);
      }
      AllGenerated(ms, f, t, caseSensitive);
    } else {
      FreshMeans(to);
    }
  }

  /** The members of the patch for two objects. */
  ghost function PatchMembers(from: Json, to: Json, caseSensitive: bool): (ms: seq<Member>)
    requires from.Object? && to.Object?
    ensures GenerateMergePatch(from, to, caseSensitive) == if ms == [] then None else Some(Object(ms))
  {
    var p := GenerateMergePatch(from, to, caseSensitive);
    if p.None? then [] else p.value.members
  }

  /** What the patch has to say of one name. */
  ghost predicate NameGenerated(ms: seq<Member>, f: map<Text, Value>, t: map<Text, Value>, k: Text,
    caseSensitive: bool) {
    var shared := k in f && k in t;
    && (Under(ms, k) == [] <==>
      (k !in f && k !in t) || (shared && Overlooks(f[k], t[k], caseSensitive) && StepsAt(f, t, k, caseSensitive)))
    && (UniqueAt(ms, k) <==> (shared ==> StepsAt(f, t, k, caseSensitive)))
    && (UniqueAt(ms, k) && Under(ms, k) != [] ==>
      k in PatchMap(f, t, caseSensitive) && Denote(Under(ms, k)[0]) == PatchMap(f, t, caseSensitive)[k])
  }

  ghost predicate StepsAt(f: map<Text, Value>, t: map<Text, Value>, k: Text, caseSensitive: bool)
    requires k in f && k in t
  {
    && ArrivalAt(f.Keys, t.Keys, k, caseSensitive).Together?
    && (!Overlooks(f[k], t[k], caseSensitive) ==> AllInStep(f[k], t[k], false))
  }

  /** The same names, and under each of them no difference. */
  ghost predicate SameMaps(f: map<Text, Value>, t: map<Text, Value>, caseSensitive: bool) {
    f.Keys == t.Keys && forall k | k in f :: Overlooks(f[k], t[k], caseSensitive)
  }

  lemma AllGenerated(ms: seq<Member>, f: map<Text, Value>, t: map<Text, Value>, caseSensitive: bool)
    requires forall k :: NameGenerated(ms, f, t, k, caseSensitive)
    ensures ms == [] <==> SameMaps(f, t, caseSensitive)
    ensures UniqueMembers(ms) <==> AllInStep(VObject(f), VObject(t), caseSensitive)
    ensures UniqueMembers(ms) ==> ToMap(ms) == PatchMap(f, t, caseSensitive)
  {
    hide UniqueMembers, ToMap, UniqueAt, Under, PatchMap, Overlooks;
    NothingUnderAll(ms);
    UniqueUnder(ms);
    if ms == [] {
      forall k
        ensures k in f <==> k in t
        ensures k in f ==> Overlooks(f[k], t[k], caseSensitive)
      {
        assert Under(ms, k) == [];
        assert NameGenerated(ms, f, t, k, caseSensitive);
      }
      assert f.Keys == t.Keys;
    }
    if SameMaps(f, t, caseSensitive) {
      forall k
        ensures Under(ms, k) == []
      {
        assert NameGenerated(ms, f, t, k, caseSensitive);
      }
    }
    assert (forall k :: UniqueAt(ms, k)) <==> forall k | k in f && k in t :: StepsAt(f, t, k, caseSensitive) by {
      forall k
        ensures UniqueAt(ms, k) <==> (k in f && k in t ==> StepsAt(f, t, k, caseSensitive))
      {
        assert NameGenerated(ms, f, t, k, caseSensitive);
      }
    }
    if UniqueMembers(ms) {
      SaysPatchMap(ms, f, t, caseSensitive);
    }
  }

  lemma SaysPatchMap(ms: seq<Member>, f: map<Text, Value>, t: map<Text, Value>, caseSensitive: bool)
    requires forall k :: NameGenerated(ms, f, t, k, caseSensitive) && UniqueAt(ms, k)
    ensures ToMap(ms) == PatchMap(f, t, caseSensitive)
  {
    hide ToMap, UniqueAt, Under, AllInStep, ArrivalAt;
    forall k
      ensures k in ToMap(ms) <==> k in PatchMap(f, t, caseSensitive)
      ensures k in ToMap(ms) ==> ToMap(ms)[k] == PatchMap(f, t, caseSensitive)[k]
    {
      assert NameGenerated(ms, f, t, k, caseSensitive) && UniqueAt(ms, k);
      UnderMeans(ms, k);
    }
    assert ToMap(ms).Keys == PatchMap(f, t, caseSensitive).Keys;
  }

  lemma NothingUnderAll(ms: seq<Member>)
    ensures ms == [] <==> forall k :: Under(ms, k) == []
  {
    if ms != [] {
      assert Under(ms, ms[0].key) != [];
    }
  }

  /** The two sorted lists behind a patch for objects. */
  lemma SortedLists(from: Json, to: Json, caseSensitive: bool) returns (x: seq<Member>, y: seq<Member>)
    requires from.Object? && to.Object? && Unique(from) && Unique(to)
    requires ToldApart(ToMap(from.members).Keys, caseSensitive) && ToldApart(ToMap(to.members).Keys, caseSensitive)
    ensures Walks(x, y, caseSensitive) && ToMap(x) == ToMap(from.members) && ToMap(y) == ToMap(to.members)
    ensures forall m | m in x :: Depth(m.value) < Depth(from)
    ensures PatchMembers(from, to, caseSensitive) == GenerateMembers(Depth(from), x, y, caseSensitive)
  {
    hide UniqueMembers, ToMap, MergeSort, GenerateMembers, Walks, ToldApart;
    x, y := MergeSort(from.members, caseSensitive), MergeSort(to.members, caseSensitive);
    ObjectMeans(from);
    ObjectMeans(to);
    SortedWalks(from.members, to.members, caseSensitive);
    SortPermutes(from.members, caseSensitive);
    forall m | m in x
      ensures Depth(m.value) < Depth(from)
    {
      SameElements(from.members, x, m);
    }
  }

  /** Both values of a shared name, as the walk compares them. */
  lemma ValuesUnder(x: seq<Member>, k: Text)
    requires UniqueMembers(x)
    ensures |Under(x, k)| <= 1 && (k in ToMap(x) <==> Under(x, k) != [])
    ensures k in ToMap(x) ==> ToMap(x)[k] == Denote(Under(x, k)[0]) && Unique(Under(x, k)[0])
    ensures k in ToMap(x) ==> exists m :: m in x && m.value == Under(x, k)[0]
  {
    hide Under, ToMap, Denote;
    UniqueUnder(x);
    UnderMeans(x, k);
    assert UniqueAt(x, k);
    if Under(x, k) != [] {
      var at := UnderFrom(x, k, 0);
      assert x[at] in x;
    }
  }

  lemma {:induction false} GeneratedName(from: Json, to: Json, k: Text, caseSensitive: bool)
    requires from.Object? && to.Object? && Unique(from) && Unique(to)
    requires Walkable(Denote(from), Denote(to), caseSensitive)
    ensures NameGenerated(PatchMembers(from, to, caseSensitive), ToMap(from.members), ToMap(to.members), k,
      caseSensitive)
    decreases Depth(from), 0
  {
    hide UniqueMembers, ToMap, Denote, Under, GenerateMembers, Change, ArrivalAt, PatchMembers, Compared, Overlooks,
      Unique;
    var f, t := ToMap(from.members), ToMap(to.members);
    WalkableMaps(from, to, caseSensitive);
    var x, y := SortedLists(from, to, caseSensitive);
    GeneratedUnder(Depth(from), x, y, k, caseSensitive);
    ValuesUnder(x, k);
    ValuesUnder(y, k);
    if k in f && k in t {
      var u, v := Under(x, k)[0], Under(y, k)[0];
      var arrival := ArrivalAt(f.Keys, t.Keys, k, caseSensitive);
      if arrival.Together? {
        ChangeMeans(u, v, caseSensitive);
      }
    } else {
      UniqueNull();
      if k in t {
        FreshMeans(Under(y, k)[0]);
      }
    }
  }

  lemma WalkableMaps(from: Json, to: Json, caseSensitive: bool)
    requires from.Object? && to.Object? && Walkable(Denote(from), Denote(to), caseSensitive)
    ensures var f, t := ToMap(from.members), ToMap(to.members);
      && ToldApart(f.Keys, caseSensitive) && ToldApart(t.Keys, caseSensitive)
      && forall k | k in f && k in t && ArrivalAt(f.Keys, t.Keys, k, caseSensitive).Together? ::
        Compared(f[k], t[k], caseSensitive)
  {}

  /** What taking two values together asks of them. */
  ghost predicate Compared(u: Value, v: Value, caseSensitive: bool) {
    && (caseSensitive || (ApartIn(u, false) && ApartIn(v, false)))
    && (SeenAs(u, caseSensitive) != SeenAs(v, caseSensitive) ==> Walkable(u, v, false))
  }

  lemma FoldedParts(f: map<Text, Value>)
    requires ToldApart(f.Keys, false)
    ensures var x := FoldValue(VObject(f)).members;
      && (forall k | k in f :: Fold(k) in x && x[Fold(k)] == FoldValue(f[k]))
      && (forall l | l in x :: exists k :: k in f && Fold(k) == l)
  {
    forall k | k in f
      ensures Fold(k) in FoldedNames(f.Keys) && FoldValue(VObject(f)).members[Fold(k)] == FoldValue(f[k])
    {
      FoldedMember(f, k);
    }
  }

  lemma UniqueNull()
    ensures Unique(Null) && Denote(Null) == VNull
  {}

  /** A name that is taken from both at once. */
  lemma {:induction false} ChangeMeans(u: Json, v: Json, caseSensitive: bool)
    requires Unique(u) && Unique(v) && Compared(Denote(u), Denote(v), caseSensitive)
    ensures var c := Change(u, v, caseSensitive);
      && (c == [] <==> Overlooks(Denote(u), Denote(v), caseSensitive))
      && (c != [] ==>
        && |c| == 1 && (c[0].Null? <==> v.Null?) && (Unique(c[0]) <==> AllInStep(Denote(u), Denote(v), false))
        && (Unique(c[0]) ==> Denote(c[0]) == ValuePatch(Denote(u), Denote(v), false)))
    decreases Depth(u), 2
  {
    hide CompareJson, GenerateMergePatch, Denote, Unique, Walkable, AllInStep, ValuePatch, Contents, FoldValue,
      ApartIn, UniqueIn;
    ComparedAs(u, v, caseSensitive);
    CompareKeeps(u, v, caseSensitive);
    var c := CompareJson(u, v, caseSensitive);
    if !c.same {
      GenerateDenotes(c.a, c.b, false);
      DenoteNull(u);
      DenoteNull(v);
      DenoteNull(c.a);
      DenoteNull(c.b);
    }
    NestedSame(c.a, c.b, caseSensitive);
  }

  lemma ComparedAs(u: Json, v: Json, caseSensitive: bool)
    requires Unique(u) && Unique(v) && Compared(Denote(u), Denote(v), caseSensitive)
    ensures CompareJson(u, v, caseSensitive).same <==>
      SeenAs(Denote(u), caseSensitive) == SeenAs(Denote(v), caseSensitive)
  {
    hide CompareJson, FoldValue, Denote, Unique, Walkable, ApartIn;
    CompareDecides(u, v, caseSensitive);
  }

  lemma NestedSame(a: Json, b: Json, caseSensitive: bool)
    ensures Overlooks(Denote(a), Denote(b), caseSensitive) <==>
      || SeenAs(Denote(a), caseSensitive) == SeenAs(Denote(b), caseSensitive)
      || (a.Object? && b.Object? && SameMaps(ToMap(a.members), ToMap(b.members), false))
  {
    hide FoldValue, ToMap;
    if a.Object? {
      ObjectMeans(a);
    }
    if b.Object? {
      ObjectMeans(b);
    }
    DenoteNull(a);
    DenoteNull(b);
  }

  // ----- the round trip and its exact condition

  /** Merged into anything but an object, a value is itself exactly if it holds no null that is taken for a removal. */
  lemma {:induction false} MergedIntoNothing(from: Value, goal: Value)
    requires !from.VObject?
    ensures RfcMerge(from, goal) == goal <==> NullSafe(from, goal)
    decreases goal
  {
    if goal.VObject? {
      var r := RfcMerge(from, goal);
      forall k | k in goal.members
        ensures k in r.members && r.members[k] == goal.members[k] <==>
          !goal.members[k].VNull? && NullSafe(VNull, goal.members[k])
      {
        MergedIntoNothing(VNull, goal.members[k]);
      }
      SameMap(r.members, goal.members);
    }
  }

  lemma SameMap(m: map<Text, Value>, n: map<Text, Value>)
    requires m.Keys <= n.Keys
    ensures m == n <==> forall k | k in n :: k in m && m[k] == n[k]
  {
    if forall k | k in n :: k in m && m[k] == n[k] {
      assert m.Keys == n.Keys;
    }
  }

  /** Without null members, whatever the source, the patch leads back. */
  lemma {:induction false} NoNullIsSafe(from: Value, goal: Value)
    requires NoNullMember(goal)
    ensures NullSafe(from, goal)
    decreases goal
  {
    if goal.VObject? {
      forall k | k in goal.members
        ensures NullSafe(Sub(from, k), goal.members[k])
      {
        NoNullIsSafe(Sub(from, k), goal.members[k]);
      }
    }
  }


  // ----- applying a patch, name by name

  /** What a member of the patch makes of the value under its name. */
  function Put(previous: seq<Json>, v: Json, caseSensitive: bool): seq<Json> {
    if v.Null? then [] else [MergePatch(if previous == [] then None else Some(previous[0]), v, caseSensitive)]
  }

  function PutAll(previous: seq<Json>, vs: seq<Json>, caseSensitive: bool): seq<Json>
    decreases |vs|
  {
    if vs == [] then previous else PutAll(Put(previous, vs[0], caseSensitive), vs[1..], caseSensitive)
  }

  ghost predicate Named(ms: seq<Member>, names: set<Text>) {
    Distinct(ms) && forall i | 0 <= i < |ms| :: ms[i].key in names
  }

  lemma RemovedUnder(ms: seq<Member>, i: nat, names: set<Text>, k: Text)
    requires Named(ms, names) && i < |ms|
    ensures Named(RemoveAt(ms, i), names)
    ensures Under(RemoveAt(ms, i), k) == if k == ms[i].key then [] else Under(ms, k)
    ensures k == ms[i].key ==> Under(ms, k) == [ms[i].value]
  {
    hide Under;
    UnderAround(ms, i, k);
    UnderConcat(ms[..i], ms[i+1..], k);
    OneUnder(ms, k);
    var r := RemoveAt(ms, i);
    assert forall j | 0 <= j < |r| :: r[j] == ms[if j < i then j else j + 1];
  }

  lemma AppendedUnder(ms: seq<Member>, m: Member, names: set<Text>, k: Text)
    requires Named(ms, names) && Under(ms, m.key) == [] && m.key in names
    ensures Named(ms + [m], names)
    ensures Under(ms + [m], k) == if k == m.key then [m.value] else Under(ms, k)
  {
    hide Under;
    UnderConcat(ms, [m], k);
    UnderOne(m, k);
    forall i | 0 <= i < |ms|
      ensures ms[i].key != m.key
    {
      UnderListed(ms, i);
    }
  }

  /** The member that a lookup finds is the one under that name. */
  lemma FoundUnder(ms: seq<Member>, names: set<Text>, k: Text, caseSensitive: bool)
    requires Named(ms, names) && k in names && ToldApart(names, caseSensitive)
    ensures var i := FindKey(ms, k, caseSensitive);
      if i < |ms| then ms[i].key == k && Under(ms, k) == [ms[i].value] else Under(ms, k) == []
  {
    hide Under, FindKey, ToldApart;
    var i := FindKey(ms, k, caseSensitive);
    FindKeyModes(ms, k, names, caseSensitive);
    FindKeyAbsent(ms, k);
    if i < |ms| {
      StrcmpZero(k, ms[i].key);
      UnderListed(ms, i);
      OneUnder(ms, k);
    } else if Under(ms, k) != [] {
      var at := UnderFrom(ms, k, 0);
    }
  }

  /** One member of the patch changes the value under its own name, and no other. */
  lemma PutUnder(ms: seq<Member>, p: Member, names: set<Text>, k: Text, caseSensitive: bool)
    requires Named(ms, names) && p.key in names && ToldApart(names, caseSensitive)
    ensures var r := MergeMember(ms, Last, p, caseSensitive);
      && r.tail.Last? && Named(r.members, names)
      && Under(r.members, k) == if k == p.key then Put(Under(ms, k), p.value, caseSensitive) else Under(ms, k)
  {
    hide Under, FindKey, RemoveAt, MergePatch, ToldApart, Named;
    var i := FindKey(ms, p.key, caseSensitive);
    FoundUnder(ms, names, p.key, caseSensitive);
    LastStays(ms, i);
    var others := if i < |ms| then RemoveAt(ms, i) else ms;
    if i < |ms| {
      RemovedUnder(ms, i, names, k);
      RemovedUnder(ms, i, names, p.key);
    }
    if !p.value.Null? {
      var previous := if i < |ms| then Some(ms[i].value) else None;
      var m := Entry(p.key, MergePatch(previous, p.value, caseSensitive));
      LastAppend(others, m);
      AppendedUnder(others, m, names, k);
    }
  }

  lemma {:induction false} PutAllUnder(ms: seq<Member>, ps: seq<Member>, names: set<Text>, k: Text, caseSensitive: bool)
    requires Named(ms, names) && ToldApart(names, caseSensitive) && forall i | 0 <= i < |ps| :: ps[i].key in names
    ensures var r := MergeMembers(ms, Last, ps, caseSensitive);
      && r.tail.Last? && Named(r.members, names)
      && Under(r.members, k) == PutAll(Under(ms, k), Under(ps, k), caseSensitive)
    decreases |ps|
  {
    hide MergeMember, Put, Named, ToldApart, Under;
    if ps == [] {
      NothingUnder(k);
    } else {
      UnderHead(ps, k);
      PutUnder(ms, ps[0], names, k, caseSensitive);
      var j := MergeMember(ms, Last, ps[0], caseSensitive);
      assert forall i | 0 <= i < |ps| - 1 :: ps[1..][i] == ps[i+1];
      PutAllUnder(j.members, ps[1..], names, k, caseSensitive);
      if ps[0].key == k {
        assert Under(ps, k)[1..] == Under(ps[1..], k);
      } else {
        assert Under(ps, k) == Under(ps[1..], k);
      }
    }
  }

  // ----- the round trip

  /** What becomes of a name of the goal is right. */
  ghost predicate NameRight(ms: seq<Member>, t: map<Text, Value>, k: Text) {
    var vs := Under(ms, k);
    (vs != [] <==> k in t) && (vs != [] ==> Denote(vs[0]) == t[k])
  }

  /** What null-safety and the order of names ask at one name. */
  ghost predicate NameSafe(f: map<Text, Value>, t: map<Text, Value>, k: Text, caseSensitive: bool) {
    k in t ==>
      && ((k in f && f[k] == t[k]) || (!t[k].VNull? && NullSafe(if k in f then f[k] else VNull, t[k])))
      && (k in f ==>
        match ArrivalAt(f.Keys, t.Keys, k, caseSensitive)
        case Together =>
          f[k] != t[k] ==>
            Kept(f[k], t[k], false) && !Overlooks(f[k], t[k], caseSensitive) && Noticed(f[k], t[k], false)
        case FromFirst => !t[k].VNull? && NullSafe(VNull, t[k])
        case ToFirst => false)
  }

  /** All that the round trip asks: no null that would have to be carried, no name in an unlucky order, no difference
   that is overlooked. */
  ghost predicate Restores(f: Value, t: Value, caseSensitive: bool) {
    NullSafe(f, t) && Kept(f, t, caseSensitive) && Noticed(f, t, caseSensitive)
  }

  lemma SafeNames(f: map<Text, Value>, t: map<Text, Value>, caseSensitive: bool)
    ensures Restores(VObject(f), VObject(t), caseSensitive) <==> forall k :: NameSafe(f, t, k, caseSensitive)
  {
    hide ArrivalAt, Overlooks;
    if forall k :: NameSafe(f, t, k, caseSensitive) {
      forall k | k in t
        ensures (k in f && f[k] == t[k]) || (!t[k].VNull? && NullSafe(Sub(VObject(f), k), t[k]))
        ensures k in f ==>
          match ArrivalAt(f.Keys, t.Keys, k, caseSensitive)
          case Together =>
            f[k] != t[k] ==>
              Kept(f[k], t[k], false) && !Overlooks(f[k], t[k], caseSensitive) && Noticed(f[k], t[k], false)
          case FromFirst => !t[k].VNull? && NullSafe(VNull, t[k])
          case ToFirst => false
      {
        assert NameSafe(f, t, k, caseSensitive);
      }
    }
  }

  lemma RightNames(r: Json, t: map<Text, Value>)
    requires r.Object?
    ensures Denote(r) == VObject(t) <==> forall k :: NameRight(r.members, t, k)
  {
    hide ToMap, Under;
    ObjectMeans(r);
    forall k
      ensures k in ToMap(r.members) <==> Under(r.members, k) != []
      ensures k in ToMap(r.members) ==> ToMap(r.members)[k] == Denote(Under(r.members, k)[0])
    {
      UnderMeans(r.members, k);
    }
    if forall k :: NameRight(r.members, t, k) {
      forall k
        ensures k in ToMap(r.members) <==> k in t
        ensures k in t ==> ToMap(r.members)[k] == t[k]
      {
        assert NameRight(r.members, t, k);
      }
      assert ToMap(r.members).Keys == t.Keys;
      assert ToMap(r.members) == t;
    }
    if ToMap(r.members) == t {
      forall k
        ensures NameRight(r.members, t, k)
      {
        UnderMeans(r.members, k);
      }
    }
  }

  /** A value that fills an empty place is right if and only if it is null-safe from nothing. */
  lemma FilledIn(v: Json, caseSensitive: bool)
    requires Unique(v) && Mergeable(VNull, Denote(v), caseSensitive)
    ensures var r := Put([], Fresh(v), caseSensitive);
      r != [] && Denote(r[0]) == Denote(v) <==> !Denote(v).VNull? && NullSafe(VNull, Denote(v))
    ensures Put([], Fresh(v), caseSensitive) == [] <==> v.Null?
  {
    hide MergePatch, Denote, Unique, RfcMerge, NullSafe, Mergeable, Fresh;
    FreshMeans(v);
    DenoteNull(v);
    DenoteNull(Fresh(v));
    if !v.Null? {
      MergeIsRfc(None, Fresh(v), caseSensitive);
      MergedIntoNothing(VNull, Denote(v));
    }
  }

  /** What is null-safe from nothing is null-safe from anything. */
  lemma {:induction false} SafeFromNothing(from: Value, goal: Value)
    requires NullSafe(VNull, goal)
    ensures NullSafe(from, goal)
    decreases goal
  {
    if goal.VObject? {
      forall k | k in goal.members
        ensures !goal.members[k].VNull? && NullSafe(Sub(from, k), goal.members[k])
      {
        SafeFromNothing(Sub(from, k), goal.members[k]);
      }
    }
  }

  /** The names of a generated patch are names of the two objects. */
  lemma PatchNamed(from: Json, to: Json, caseSensitive: bool)
    requires from.Object? && to.Object? && Unique(from) && Unique(to)
    requires ToldApart(ToMap(from.members).Keys, caseSensitive) && ToldApart(ToMap(to.members).Keys, caseSensitive)
    ensures var ps := PatchMembers(from, to, caseSensitive);
      forall i | 0 <= i < |ps| :: ps[i].key in ToMap(from.members).Keys + ToMap(to.members).Keys
  {
    hide ToMap, Under, GenerateMembers, Change, ArrivalAt, PatchMembers, Unique;
    var x, y := SortedLists(from, to, caseSensitive);
    var ps := PatchMembers(from, to, caseSensitive);
    forall i | 0 <= i < |ps|
      ensures ps[i].key in ToMap(from.members).Keys + ToMap(to.members).Keys
    {
      UnderListed(ps, i);
      GeneratedUnder(Depth(from), x, y, ps[i].key, caseSensitive);
      UnderMeans(x, ps[i].key);
      UnderMeans(y, ps[i].key);
    }
  }

  /** Generating and applying, under one name. */
  lemma AppliedUnder(copy: Json, from: Json, to: Json, x: seq<Member>, y: seq<Member>, k: Text, caseSensitive: bool,
      merging: bool)
    requires copy.Object? && from.Object? && to.Object? && Unique(copy) && Unique(from) && Unique(to)
    requires ToMap(copy.members) == ToMap(from.members)
    requires ToldApart(ToMap(from.members).Keys, caseSensitive) && ToldApart(ToMap(to.members).Keys, caseSensitive)
    requires ToldApart(ToMap(from.members).Keys + ToMap(to.members).Keys, merging)
    requires Walks(x, y, caseSensitive) && ToMap(x) == ToMap(from.members) && ToMap(y) == ToMap(to.members)
    requires forall m | m in x :: Depth(m.value) < Depth(from)
    requires PatchMembers(from, to, caseSensitive) == GenerateMembers(Depth(from), x, y, caseSensitive)
    ensures Under(MergeMembers(copy.members, Last, PatchMembers(from, to, caseSensitive), merging).members, k) ==
      PutAll(Under(copy.members, k), Told(Under(x, k), Under(y, k),
          ArrivalAt(ToMap(from.members).Keys, ToMap(to.members).Keys, k, caseSensitive), caseSensitive), merging)
  {
    hide ToMap, Under, GenerateMembers, ArrivalAt, PatchMembers, MergeMembers, Told, PutAll, Walks, Denote;
    var names := ToMap(from.members).Keys + ToMap(to.members).Keys;
    PatchNamed(from, to, caseSensitive);
    GeneratedUnder(Depth(from), x, y, k, caseSensitive);
    ObjectMeans(copy);
    DistinctNames(copy.members);
    MapOf(copy.members);
    PutAllUnder(copy.members, PatchMembers(from, to, caseSensitive), names, k, merging);
  }

  lemma PutOne(w: seq<Json>, a: Json, caseSensitive: bool)
    ensures PutAll(w, [a], caseSensitive) == Put(w, a, caseSensitive)
  {
    assert [a][1..] == [];
  }

  lemma PutTwo(w: seq<Json>, a: Json, b: Json, caseSensitive: bool)
    ensures PutAll(w, [a, b], caseSensitive) == Put(Put(w, a, caseSensitive), b, caseSensitive)
  {
    assert [a, b][1..] == [b];
    PutOne(Put(w, a, caseSensitive), b, caseSensitive);
  }

  lemma SameObjects(copy: Json, from: Json)
    requires from.Object? && Denote(copy) == Denote(from)
    ensures copy.Object? && ToMap(copy.members) == ToMap(from.members)
  {
    ObjectMeans(from);
    DenoteNull(copy);
  }

  lemma FillableMaps(from: Json, to: Json, caseSensitive: bool, merging: bool)
    requires from.Object? && to.Object? && Fillable(Denote(from), Denote(to), caseSensitive, merging)
    ensures var f, t := ToMap(from.members), ToMap(to.members);
      && ToldApart(f.Keys + t.Keys, merging)
      && forall k | k in t ::
        if k !in f then Mergeable(VNull, t[k], merging)
        else
          match ArrivalAt(f.Keys, t.Keys, k, caseSensitive)
          case Together => !Overlooks(f[k], t[k], caseSensitive) ==> Fillable(f[k], t[k], false, merging)
          case FromFirst => Mergeable(VNull, t[k], merging)
          case ToFirst => true
  {}

  lemma PartOf(copy: Json, k: Text)
    requires copy.Object? && Appendable(copy) && Under(copy.members, k) != []
    ensures Appendable(Under(copy.members, k)[0])
  {
    var at := UnderFrom(copy.members, k, 0);
  }

  /** One name, after generating and applying. */
  lemma {:induction false} NameRestored(copy: Json, from: Json, to: Json, k: Text, caseSensitive: bool, merging: bool)
    requires Unique(copy) && Appendable(copy) && Unique(from) && Unique(to) && Denote(copy) == Denote(from)
    requires from.Object? && to.Object? && copy.Object? && (caseSensitive ==> merging)
    requires Walkable(Denote(from), Denote(to), caseSensitive)
    requires Fillable(Denote(from), Denote(to), caseSensitive, merging)
    ensures var r := MergeMembers(copy.members, Last, PatchMembers(from, to, caseSensitive), merging);
      NameRight(r.members, ToMap(to.members), k) <==>
      NameSafe(ToMap(from.members), ToMap(to.members), k, caseSensitive)
    decreases Depth(from), 0
  {
    hide UniqueMembers, ToMap, Denote, Under, GenerateMembers, Change, ArrivalAt, PatchMembers, Compared, Overlooks,
      Unique, Appendable, MergeMembers, Put, PutAll, NullSafe, Kept, Mergeable, Walkable, Fillable, Walks;
    var f, t := ToMap(from.members), ToMap(to.members);
    SameObjects(copy, from);
    WalkableMaps(from, to, caseSensitive);
    FillableMaps(from, to, caseSensitive, merging);
    var x, y := SortedLists(from, to, caseSensitive);
    AppliedUnder(copy, from, to, x, y, k, caseSensitive, merging);
    ListsUnder(x, y, k, caseSensitive);
    ObjectMeans(copy);
    ValuesUnder(copy.members, k);
    var w, u, v := Under(copy.members, k), Under(x, k), Under(y, k);
    if k in f && k in t {
      PartOf(copy, k);
      assert w == [w[0]] && u == [u[0]] && v == [v[0]];
      if NullSafe(VNull, t[k]) {
        SafeFromNothing(f[k], t[k]);
      }
      SharedRight(w[0], u[0], v[0], ArrivalAt(f.Keys, t.Keys, k, caseSensitive), caseSensitive, merging);
    } else if k in t {
      PutOne(w, Fresh(v[0]), merging);
      FilledIn(v[0], merging);
    } else {
      NothingPut(w, merging);
    }
  }

  lemma ListsUnder(x: seq<Member>, y: seq<Member>, k: Text, caseSensitive: bool)
    requires Walks(x, y, caseSensitive)
    ensures |Under(x, k)| <= 1 && (k in ToMap(x) <==> Under(x, k) != [])
    ensures |Under(y, k)| <= 1 && (k in ToMap(y) <==> Under(y, k) != [])
    ensures k in ToMap(x) ==> ToMap(x)[k] == Denote(Under(x, k)[0]) && Unique(Under(x, k)[0])
    ensures k in ToMap(y) ==> ToMap(y)[k] == Denote(Under(y, k)[0]) && Unique(Under(y, k)[0])
    ensures k in ToMap(x) ==> exists m :: m in x && m.value == Under(x, k)[0]
  {
    ValuesUnder(x, k);
    ValuesUnder(y, k);
  }

  lemma NothingPut(w: seq<Json>, caseSensitive: bool)
    ensures PutAll(w, [], caseSensitive) == w && PutAll(w, [Null], caseSensitive) == []
  {
    PutOne(w, Null, caseSensitive);
  }

  /** A name that both objects have. */
  lemma {:induction false} SharedRight(w: Json, u: Json, v: Json, arrival: Arrival, caseSensitive: bool, merging: bool)
    requires Unique(w) && Appendable(w) && Unique(u) && Unique(v) && Denote(w) == Denote(u)
    requires match arrival
      case Together =>
        && Compared(Denote(u), Denote(v), caseSensitive)
        && (!Overlooks(Denote(u), Denote(v), caseSensitive) ==> Fillable(Denote(u), Denote(v), false, merging))
      case FromFirst => Mergeable(VNull, Denote(v), merging)
      case ToFirst => true
    ensures var r := PutAll([w], Told([u], [v], arrival, caseSensitive), merging);
      r != [] && Denote(r[0]) == Denote(v) <==>
      match arrival
      case Together => Denote(u) == Denote(v) ||
        (!Denote(v).VNull? && !Overlooks(Denote(u), Denote(v), caseSensitive) && Restores(Denote(u), Denote(v), false))
      case FromFirst => !Denote(v).VNull? && NullSafe(VNull, Denote(v))
      case ToFirst => false
    decreases Depth(u), 3
  {
    hide Denote, Unique, Appendable, NullSafe, Kept, Noticed, Mergeable, Compared, Overlooks, Fillable, Change, Fresh,
      Restores;
    match arrival
    case Together =>
      ChangeMeans(u, v, caseSensitive);
      SameIsOverlooked(Denote(u), caseSensitive);
      if Overlooks(Denote(u), Denote(v), caseSensitive) {
        NothingPut([w], merging);
      } else {
        ChangeRestores(w, u, v, caseSensitive, merging);
        PutOne([w], Change(u, v, caseSensitive)[0], merging);
        DenoteNull(v);
      }
    case FromFirst =>
      PutTwo([w], Null, Fresh(v), merging);
      FilledIn(v, merging);
    case ToFirst =>
      PutTwo([w], Fresh(v), Null, merging);
  }

  lemma SameIsOverlooked(v: Value, caseSensitive: bool)
    ensures Overlooks(v, v, caseSensitive)
  {}

  lemma {:induction false} ChangeRestores(w: Json, u: Json, v: Json, caseSensitive: bool, merging: bool)
    requires Unique(w) && Appendable(w) && Unique(u) && Unique(v) && Denote(w) == Denote(u)
    requires Compared(Denote(u), Denote(v), caseSensitive) && !Overlooks(Denote(u), Denote(v), caseSensitive)
    requires Fillable(Denote(u), Denote(v), false, merging)
    ensures var c := Change(u, v, caseSensitive);
      c != [] &&
      (Denote(MergePatch(Some(w), c[0], merging)) == Denote(v) <==> Restores(Denote(u), Denote(v), false))
    decreases Depth(u), 2
  {
    hide CompareJson, GenerateMergePatch, Denote, Unique, Walkable, Fillable, Contents, Restores, MergePatch,
      FoldValue, ApartIn;
    ComparedAs(u, v, caseSensitive);
    CompareKeeps(u, v, caseSensitive);
    ChangeMeans(u, v, caseSensitive);
    var c := CompareJson(u, v, caseSensitive);
    RestoredExactly(w, c.a, c.b, false, merging);
  }

  /** What is left of a copy: without a patch it stays as it is. */
  function Merged(copy: Json, patch: Option<Json>, caseSensitive: bool): Json {
    if patch.None? then copy else MergePatch(Some(copy), patch.value, caseSensitive)
  }

  /** A generated patch, applied to a copy, leads to the goal exactly under these conditions; whatever the modes, as
   long as the patch is not merged with less regard to case. */
  lemma {:induction false} RestoredExactly(copy: Json, from: Json, to: Json, caseSensitive: bool, merging: bool)
    requires Unique(copy) && Appendable(copy) && Unique(from) && Unique(to) && Denote(copy) == Denote(from)
    requires Walkable(Denote(from), Denote(to), caseSensitive) && (caseSensitive ==> merging)
    requires Fillable(Denote(from), Denote(to), caseSensitive, merging)
    ensures Denote(Merged(copy, GenerateMergePatch(from, to, caseSensitive), merging)) == Denote(to) <==>
      Restores(Denote(from), Denote(to), caseSensitive)
    decreases Depth(from), 1
  {
    hide UniqueMembers, ToMap, Under, ArrivalAt, PatchMembers, Unique, Appendable, NullSafe, Kept, Noticed, Walkable,
      Fillable, GenerateMergePatch, NameRight, NameSafe, Restores, Denote;
    if from.Object? && to.Object? {
      SameObjects(copy, from);
      var f, t := ToMap(from.members), ToMap(to.members);
      var ps := PatchMembers(from, to, caseSensitive);
      var r := MergeMembers(copy.members, Last, ps, merging);
      LastAtEnd(copy);
      forall k
        ensures NameRight(r.members, t, k) <==> NameSafe(f, t, k, caseSensitive)
      {
        NameRestored(copy, from, to, k, caseSensitive, merging);
      }
      RightNames(r, t);
      SafeNames(f, t, caseSensitive);
      ObjectMeans(from);
      ObjectMeans(to);
    } else {
      ReplacedExactly(copy, from, to, caseSensitive, merging);
    }
  }

  /** Where one of the two is no object, the patch is the goal. */
  lemma ReplacedExactly(copy: Json, from: Json, to: Json, caseSensitive: bool, merging: bool)
    requires Unique(copy) && Appendable(copy) && Unique(to) && Denote(copy) == Denote(from)
    requires !(from.Object? && to.Object?) && Fillable(Denote(from), Denote(to), caseSensitive, merging)
    ensures Denote(Merged(copy, GenerateMergePatch(from, to, caseSensitive), merging)) == Denote(to) <==>
      Restores(Denote(from), Denote(to), caseSensitive)
  {
    DenoteNull(from);
    DenoteNull(to);
    FreshMeans(to);
    DenoteNull(Fresh(to));
    if to.Object? {
      hide MergePatch, RfcMerge, Denote, Unique, Appendable;
      MergeableFrom(Denote(copy), Denote(to), merging);
      MergeIsRfc(Some(copy), Fresh(to), merging);
      MergedIntoNothing(Denote(from), Denote(to));
    } else {
      FreshMeans(Fresh(to));
    }
  }

  lemma LastAtEnd(j: Json)
    requires j.Object? && Appendable(j)
    ensures j.tail == Last
  {}

  lemma MergeableFrom(v: Value, patch: Value, caseSensitive: bool)
    requires !v.VObject? && Mergeable(VNull, patch, caseSensitive)
    ensures Mergeable(v, patch, caseSensitive)
  {}

  /**
   Generating a merge patch and applying it to a copy of `from`, or leaving the copy as it
   is where there is no patch, leads to the data of `to` if and only if `to` is null-safe,
   the order of names keeps all its members, and no difference is overlooked.
   */
  lemma MergeRoundTrip(copy: Json, from: Json, to: Json, caseSensitive: bool)
    requires Unique(copy) && Appendable(copy) && Unique(from) && Unique(to) && Denote(copy) == Denote(from)
    requires Walkable(Denote(from), Denote(to), caseSensitive)
    requires Fillable(Denote(from), Denote(to), caseSensitive, caseSensitive)
    ensures Denote(Merged(copy, GenerateMergePatch(from, to, caseSensitive), caseSensitive)) == Denote(to) <==>
      && NullSafe(Denote(from), Denote(to)) && Kept(Denote(from), Denote(to), caseSensitive)
      && Noticed(Denote(from), Denote(to), caseSensitive)
  {
    hide Merged, GenerateMergePatch, Walkable, Fillable, NullSafe, Kept, Noticed;
    RestoredExactly(copy, from, to, caseSensitive, caseSensitive);
  }

  // ----- where the order of names asks nothing

  /** Names that are in step are kept, where no difference is overlooked. */
  lemma {:induction false} InStepKeeps(f: Value, t: Value, caseSensitive: bool)
    requires AllInStep(f, t, caseSensitive) && Noticed(f, t, caseSensitive)
    ensures Kept(f, t, caseSensitive)
    decreases f
  {
    if f.VObject? && t.VObject? {
      forall k | k in f.members && k in t.members && f.members[k] != t.members[k]
        ensures Kept(f.members[k], t.members[k], false)
      {
        InStepKeeps(f.members[k], t.members[k], false);
      }
    }
  }

  /** Where names are sorted by strcmp, nothing holds up a list. */
  lemma SortedByStrcmp(f: map<Text, Value>, t: map<Text, Value>, caseSensitive: bool)
    requires forall a, b | a in f.Keys + t.Keys && b in f.Keys + t.Keys ::
      CompareStrings(a, b, caseSensitive) == Strcmp(a, b)
    ensures InStep(f, t, caseSensitive)
  {
    forall k | k in f && k in t
      ensures ArrivalAt(f.Keys, t.Keys, k, caseSensitive).Together?
    {
      OnePeak(f.Keys, k, caseSensitive);
      OnePeak(t.Keys, k, caseSensitive);
    }
  }

  lemma OnePeak(names: set<Text>, k: Text, caseSensitive: bool)
    requires k in names
    requires forall a, b | a in names && b in names :: CompareStrings(a, b, caseSensitive) == Strcmp(a, b)
    ensures Peaks(names, k, caseSensitive) == {k}
  {
    StrcmpZero(k, k);
    forall e | e in names && Strcmp(e, k) <= 0 && e != k
      ensures !Peak(names, e, k, caseSensitive)
    {
      StrcmpZero(e, k);
      StrcmpAntisymmetric(e, k);
    }
    forall d | d in names && CompareStrings(k, d, caseSensitive) < 0
      ensures CompareStrings(d, k, caseSensitive) > 0
    {
      StrcmpAntisymmetric(k, d);
    }
  }

  lemma {:induction false} AlwaysMergeable(target: Value, patch: Value)
    ensures Mergeable(target, patch, true)
    decreases patch
  {
    if patch.VObject? {
      var base := if target.VObject? then target.members else map[];
      forall k | k in patch.members
        ensures Mergeable(if k in base then base[k] else VNull, patch.members[k], true)
      {
        AlwaysMergeable(if k in base then base[k] else VNull, patch.members[k]);
      }
    }
  }

  /** Applied with regard to case, a patch fills in anything. */
  lemma {:induction false} AlwaysFillable(f: Value, t: Value, caseSensitive: bool)
    ensures Fillable(f, t, caseSensitive, true)
    decreases f
  {
    hide ArrivalAt, Mergeable;
    if !f.VObject? || !t.VObject? {
      AlwaysMergeable(VNull, t);
    } else {
      forall k | k in t.members
        ensures Mergeable(VNull, t.members[k], true)
        ensures k in f.members ==> Fillable(f.members[k], t.members[k], false, true)
      {
        AlwaysMergeable(VNull, t.members[k]);
        if k in f.members {
          AlwaysFillable(f.members[k], t.members[k], false);
        }
      }
    }
  }

  /** With regard to case nothing is asked of the names of two objects that have no objects under the same name. */
  lemma FlatRoundTrip(copy: Json, from: Json, to: Json)
    requires Unique(copy) && Appendable(copy) && Unique(from) && Unique(to) && Denote(copy) == Denote(from)
    requires from.Object? && to.Object?
    requires var f, t := ToMap(from.members), ToMap(to.members);
      forall k | k in f && k in t :: !(f[k].VObject? && t[k].VObject?)
    ensures Denote(Merged(copy, GenerateMergePatch(from, to, true), true)) == Denote(to) <==>
      NullSafe(Denote(from), Denote(to))
  {
    hide Merged, GenerateMergePatch, NullSafe, Fillable, ToMap, Unique, FoldValue;
    ObjectMeans(from);
    ObjectMeans(to);
    var f, t := ToMap(from.members), ToMap(to.members);
    SortedByStrcmp(f, t, true);
    InStepKeeps(VObject(f), VObject(t), true);
    AlwaysFillable(VObject(f), VObject(t), true);
    MergeRoundTrip(copy, from, to, true);
  }
}
