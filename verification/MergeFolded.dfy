/** Merging without regard to case is merging with regard to case on the folded trees. */
module MergeFolded {
  import opened Basics
  import opened Strings
  import opened Sorting
  import opened Tails
  import opened Json
  import opened Folding
  import opened Merge
  import opened MergeProofs

  function FoldOption(target: Option<Json>): Option<Json> {
    if target.Some? then Some(FoldNames(target.value)) else None
  }

  lemma {:induction false} FreshFolds(j: Json)
    ensures FoldNames(Fresh(j)) == Fresh(FoldNames(j))
  {
    match j
    case Array(items) =>
      forall i | 0 <= i < |items|
        ensures FoldNames(Fresh(items[i])) == Fresh(FoldNames(items[i]))
      {
        FreshFolds(items[i]);
      }
      assert FoldNames(Fresh(j)).items == Fresh(FoldNames(j)).items;
    case Object(members, _) =>
      forall i | 0 <= i < |members|
        ensures FoldMembers(FreshMembers(members))[i] == FreshMembers(FoldMembers(members))[i]
      {
        FreshFolds(members[i].value);
      }
      assert FoldMembers(FreshMembers(members)) == FreshMembers(FoldMembers(members));
    case _ =>
  }

  lemma FoldConcat(a: seq<Member>, b: seq<Member>)
    ensures FoldMembers(a + b) == FoldMembers(a) + FoldMembers(b)
  {
    hide FoldNames, Fold;
  }

  lemma FoldCut(ms: seq<Member>, n: nat)
    requires n <= |ms|
    ensures FoldMembers(ms[..n]) == FoldMembers(ms)[..n] && FoldMembers(ms[n..]) == FoldMembers(ms)[n..]
  {
    hide FoldNames, Fold;
  }

  lemma RemoveFolds(ms: seq<Member>, i: nat)
    requires i < |ms|
    ensures FoldMembers(RemoveAt(ms, i)) == RemoveAt(FoldMembers(ms), i)
  {
    FoldConcat(ms[..i], ms[i+1..]);
    FoldCut(ms, i);
    FoldCut(ms, i + 1);
    hide FoldMembers;
    assert RemoveAt(ms, i) == ms[..i] + ms[i+1..];
  }

  lemma FoldOne(m: Member)
    ensures FoldMembers([m]) == [Entry(Fold(m.key), FoldNames(m.value))] && FoldMembers([]) == []
  {}

  lemma AppendFolds(ms: seq<Member>, tail: Tail, m: Member)
    ensures FoldMembers(Append(ms, tail, m)) ==
      Append(FoldMembers(ms), tail, Entry(Fold(m.key), FoldNames(m.value)))
    ensures AppendTail(FoldMembers(ms), tail) == AppendTail(ms, tail)
  {
    hide FoldMembers;
    var last := Entry(Fold(m.key), FoldNames(m.value));
    FoldOne(m);
    FoldConcat(ms, [m]);
    if tail.Middle? && tail.at < |ms| {
      FoldCut(ms, tail.at + 1);
      FoldConcat(ms[..tail.at+1], [m]);
    }
  }

  /** `merge_patch` without regard to case does what it does with regard to case on the folded trees. */
  lemma {:induction false} MergeFolds(target: Option<Json>, patch: Json)
    ensures MergePatch(FoldOption(target), FoldNames(patch), true) == FoldNames(MergePatch(target, patch, false))
    decreases patch, 1
  {
    if patch.Object? {
      if target.Some? && target.value.Object? {
        MergeMembersFolds(target.value.members, target.value.tail, patch.members);
      } else {
        MergeMembersFolds([], Last, patch.members);
        assert FoldMembers([]) == [];
      }
    } else {
      FreshFolds(patch);
    }
  }

  lemma {:induction false} MergeMembersFolds(ms: seq<Member>, tail: Tail, ps: seq<Member>)
    ensures MergeMembers(FoldMembers(ms), tail, FoldMembers(ps), true) == FoldNames(MergeMembers(ms, tail, ps, false))
    decreases ps, 0
  {
    if ps != [] {
      hide MergeMember, Fold;
      FoldTails(ps);
      MergeMemberFolds(ms, tail, ps[0]);
      var j := MergeMember(ms, tail, ps[0], false);
      MergeMembersFolds(j.members, j.tail, ps[1..]);
    }
  }

  lemma {:induction false} MergeMemberFolds(ms: seq<Member>, tail: Tail, p: Member)
    ensures MergeMember(FoldMembers(ms), tail, Entry(Fold(p.key), FoldNames(p.value)), true) ==
      FoldNames(MergeMember(ms, tail, p, false))
    decreases p, 0
  {
    hide FindKey, RemoveAt, RemoveTail, Append, AppendTail, MergePatch, Fold;
    var i := FindKey(ms, p.key, false);
    FindFolds(ms, p.key);
    if i < |ms| {
      RemoveFolds(ms, i);
    }
    var others := if i < |ms| then RemoveAt(ms, i) else ms;
    var left := if i < |ms| then RemoveTail(|ms|, tail, i) else tail;
    NullFolds(p.value);
    if !p.value.Null? {
      var previous := if i < |ms| then Some(ms[i].value) else None;
      MergeFolds(previous, p.value);
      AppendFolds(others, left, Entry(p.key, MergePatch(previous, p.value, false)));
    }
  }

  lemma NullFolds(j: Json)
    ensures FoldNames(j).Null? <==> j.Null?
  {}

  lemma {:induction false} AppendableFolds(j: Json)
    requires Appendable(j)
    ensures Appendable(FoldNames(j))
  {
    match j
    case Array(items) =>
      forall i | 0 <= i < |items|
        ensures Appendable(FoldItems(items)[i])
      {
        AppendableFolds(items[i]);
      }
    case Object(members, _) =>
      forall i | 0 <= i < |members|
        ensures Appendable(FoldMembers(members)[i].value)
      {
        AppendableFolds(members[i].value);
      }
    case _ =>
  }

  /** RFC 7396, section 2, as a mode sees the data: without regard to case, on the data with all names folded. It asks
   only that no object has two names that are the same in that mode. */
  lemma MergeIsRfcIn(target: Option<Json>, patch: Json, caseSensitive: bool)
    requires UniqueIn(patch, caseSensitive)
    requires target.Some? ==> UniqueIn(target.value, caseSensitive) && Appendable(target.value)
    ensures var r := MergePatch(target, patch, caseSensitive);
      && UniqueIn(r, caseSensitive)
      && SeenAs(Denote(r), caseSensitive) ==
        RfcMerge(SeenAs(Target(target), caseSensitive), SeenAs(Denote(patch), caseSensitive))
  {
    hide MergePatch, Unique, Denote, FoldNames, Appendable, UniqueIn, RfcMerge, Mergeable, SeenAs;
    SeenMeans(patch, caseSensitive);
    var t := if caseSensitive then target else FoldOption(target);
    if target.Some? {
      SeenMeans(target.value, caseSensitive);
      AppendableFolds(target.value);
    }
    NullSeen(caseSensitive);
    var p := Seen(patch, caseSensitive);
    AlwaysMergeable(Target(t), Denote(p));
    MergeIsRfc(t, p, true);
    MergeFolds(target, patch);
    SeenMeans(MergePatch(target, patch, caseSensitive), caseSensitive);
  }

  lemma NullSeen(caseSensitive: bool)
    ensures SeenAs(VNull, caseSensitive) == VNull
  {}
}
