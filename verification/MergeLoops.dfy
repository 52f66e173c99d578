/** Merge patches as they run: loops over the members of the patch or of the two sorted objects. */
module MergeLoops {
  import opened Basics
  import opened Strings
  import opened Sorting
  import opened Tails
  import opened Json
  import opened CompareProofs
  import opened CompareLoops
  import opened Merge

  /** `merge_patch`; the target is consumed and the result takes its place. */
  method RunMergePatch(target: Option<Json>, patch: Json, caseSensitive: bool) returns (result: Json)
    ensures result == MergePatch(target, patch, caseSensitive)
    decreases patch
  {
    if !patch.Object? {
      return Fresh(patch);
    }
    var members, tail := [], Last;
    if target.Some? && target.value.Object? {
      members, tail := target.value.members, target.value.tail;
    }
    var rest := patch.members;
    while rest != []
      invariant forall m | m in rest :: m in patch.members
      invariant MergeMembers(members, tail, rest, caseSensitive) == MergePatch(target, patch, caseSensitive)
      decreases |rest|
    {
      var child := rest[0];
      assert child in patch.members;
      var i := GetObjectItem(members, child.key, caseSensitive);
      var replaceMe := if i < |members| then Some(members[i].value) else None;
      if i < |members| {
        members, tail := RemoveAt(members, i), RemoveTail(|members|, tail, i);
      }
      if !child.value.Null? {
        var replacement := RunMergePatch(replaceMe, child.value, caseSensitive);
        members, tail := Append(members, tail, Entry(child.key, replacement)), AppendTail(members, tail);
      }
      rest := rest[1..];
    }
    return Object(members, tail);
  }

  /** `generate_merge_patch`. */
  method RunGenerateMergePatch(from: Json, to: Json, caseSensitive: bool) returns (patch: Option<Json>)
    ensures patch == GenerateMergePatch(from, to, caseSensitive)
    decreases Depth(from), 2
  {
    if !to.Object? || !from.Object? {
      return Some(Fresh(to));
    }
    var x, y := MergeSort(from.members, caseSensitive), MergeSort(to.members, caseSensitive);
    SortPermutes(from.members, caseSensitive);
    forall m | m in x
      ensures Depth(m.value) < Depth(from)
    {
      SameElements(from.members, x, m);
    }
    var members := RunGenerateMembers(Depth(from), x, y, caseSensitive);
    return if members == [] then None else Some(Object(members));
  }

  method RunGenerateMembers(ghost depth: nat, x: seq<Member>, y: seq<Member>, caseSensitive: bool)
    returns (members: seq<Member>)
    requires forall m | m in x :: Depth(m.value) < depth
    ensures members == GenerateMembers(depth, x, y, caseSensitive)
    decreases depth, 1
  {
    hide HeadMember, GenerateMembers, Strcmp;
    var a, b := x, y;
    members := [];
    while a != [] || b != []
      invariant forall m | m in a :: Depth(m.value) < depth
      invariant members + GenerateMembers(depth, a, b, caseSensitive) == GenerateMembers(depth, x, y, caseSensitive)
      decreases |a| + |b|
    {
      var diff := Order(a, b);
      GenerateStep(depth, a, b, caseSensitive);
      var head := RunHeadMember(depth, a, b, diff, caseSensitive);
      members := members + head;
      a, b := if diff <= 0 then a[1..] else a, if diff >= 0 then b[1..] else b;
    }
    GenerateEnd(depth, caseSensitive);
  }

  lemma GenerateStep(depth: nat, x: seq<Member>, y: seq<Member>, caseSensitive: bool)
    requires (x != [] || y != []) && forall m | m in x :: Depth(m.value) < depth
    ensures var diff := Order(x, y);
      GenerateMembers(depth, x, y, caseSensitive) == HeadMember(depth, x, y, diff, caseSensitive)
        + GenerateMembers(depth, if diff <= 0 then x[1..] else x, if diff >= 0 then y[1..] else y, caseSensitive)
  {
    hide HeadMember, Strcmp;
  }

  lemma GenerateEnd(depth: nat, caseSensitive: bool)
    ensures GenerateMembers(depth, [], [], caseSensitive) == []
  {}

  /** The body of the loop. */
  method RunHeadMember(ghost depth: nat, x: seq<Member>, y: seq<Member>, diff: int, caseSensitive: bool)
    returns (head: seq<Member>)
    requires forall m | m in x :: Depth(m.value) < depth
    requires (diff <= 0 ==> x != []) && (diff >= 0 ==> y != [])
    ensures head == HeadMember(depth, x, y, diff, caseSensitive)
    decreases depth, 0
  {
    if diff < 0 {
      return [Entry(x[0].key, Null)];
    } else if diff > 0 {
      return [Entry(y[0].key, Fresh(y[0].value))];
    }
    CompareKeeps(x[0].value, y[0].value, caseSensitive);
    var same, a, b := RunCompareJson(x[0].value, y[0].value, caseSensitive);
    if same {
      return [];
    }
    var patch := RunGenerateMergePatch(a, b, false);
    return if patch.None? then [] else [Entry(y[0].key, patch.value)];
  }
}
