/** JSON Merge Patch as the library applies and generates it (RFC 7396). */
module Merge {
  import opened Basics
  import opened Strings
  import opened Sorting
  import opened Tails
  import opened Json
  import opened Compare
  import opened CompareProofs
  import opened Folding

  /** `merge_patch`; no target stands for NULL. */
  function MergePatch(target: Option<Json>, patch: Json, caseSensitive: bool): Json
    decreases patch, 1
  {
    if !patch.Object? then Fresh(patch)
    else if target.Some? && target.value.Object? then
      MergeMembers(target.value.members, target.value.tail, patch.members, caseSensitive)
    else MergeMembers([], Last, patch.members, caseSensitive)
  }

  function MergeMembers(ms: seq<Member>, tail: Tail, ps: seq<Member>, caseSensitive: bool): (j: Json)
    ensures j.Object?
    decreases ps, 0
  {
    if ps == [] then Object(ms, tail)
    else
      var j := MergeMember(ms, tail, ps[0], caseSensitive);
      MergeMembers(j.members, j.tail, ps[1..], caseSensitive)
  }

  /** One member of the patch: drop the old member, then link in what replaces it. */
  function MergeMember(ms: seq<Member>, tail: Tail, p: Member, caseSensitive: bool): (j: Json)
    ensures j.Object?
    decreases p, 0
  {
    var i := FindKey(ms, p.key, caseSensitive);
    var others := if i < |ms| then RemoveAt(ms, i) else ms;
    var left := if i < |ms| then RemoveTail(|ms|, tail, i) else tail;
    if p.value.Null? then Object(others, left)
    else
      var previous := if i < |ms| then Some(ms[i].value) else None;
      Object(Append(others, left, Entry(p.key, MergePatch(previous, p.value, caseSensitive))), AppendTail(others, left))
  }

  /** `generate_merge_patch`; none stands for NULL, "nothing to change". */
  function GenerateMergePatch(from: Json, to: Json, caseSensitive: bool): Option<Json>
    decreases Depth(from), 1, 0
  {
    if !from.Object? || !to.Object? then Some(Fresh(to))
    else
      var x, y := MergeSort(from.members, caseSensitive), MergeSort(to.members, caseSensitive);
      SortPermutes(from.members, caseSensitive);
      assert forall m | m in x :: Depth(m.value) < Depth(from) by {
        forall m | m in x
          ensures Depth(m.value) < Depth(from)
        {
          SameElements(from.members, x, m);
        }
      }
      var ms := GenerateMembers(Depth(from), x, y, caseSensitive);
      if ms == [] then None else Some(Object(ms))
  }

  /** The walk along the two sorted lists; it always orders by strcmp and recurses case-insensitively. */
  function GenerateMembers(ghost depth: nat, x: seq<Member>, y: seq<Member>, caseSensitive: bool): seq<Member>
    requires forall m | m in x :: Depth(m.value) < depth
    decreases depth, 0, 1 + |x| + |y|
  {
    if x == [] && y == [] then []
    else
      var diff := Order(x, y);
      HeadMember(depth, x, y, diff, caseSensitive)
      + GenerateMembers(depth, if diff <= 0 then x[1..] else x, if diff >= 0 then y[1..] else y, caseSensitive)
  }

  function Order(x: seq<Member>, y: seq<Member>): (diff: int)
    requires x != [] || y != []
    ensures (diff <= 0 ==> x != []) && (diff >= 0 ==> y != [])
  {
    if x == [] then 1 else if y == [] then -1 else Strcmp(x[0].key, y[0].key)
  }

  /** The member of the patch for the name at the head, if it needs one. */
  function HeadMember(ghost depth: nat, x: seq<Member>, y: seq<Member>, diff: int, caseSensitive: bool): seq<Member>
    requires forall m | m in x :: Depth(m.value) < depth
    requires (diff <= 0 ==> x != []) && (diff >= 0 ==> y != [])
    decreases depth, 0, 0
  {
    if diff < 0 then [Entry(x[0].key, Null)]
    else if diff > 0 then [Entry(y[0].key, Fresh(y[0].value))]
    else
      CompareKeeps(x[0].value, y[0].value, caseSensitive);
      var c := CompareJson(x[0].value, y[0].value, caseSensitive);
      if c.same then []
      else
        var patch := GenerateMergePatch(c.a, c.b, false);
        if patch.None? then [] else [Entry(y[0].key, patch.value)]
  }

  /** RFC 7396, section 2, on the data two trees hold; an absent member counts as a non-object. */
  function RfcMerge(target: Value, patch: Value): Value
    decreases patch
  {
    if !patch.VObject? then patch
    else
      var base := if target.VObject? then target.members else map[];
      VObject(map k | k in base.Keys + patch.members.Keys && !(k in patch.members && patch.members[k].VNull?) ::
        if k in patch.members then RfcMerge(if k in base then base[k] else VNull, patch.members[k]) else base[k])
  }

  /** The generator sees no difference: the values are the same to the comparison, or they are objects of the same names
   between whose values it sees none without regard to case. */
  ghost predicate Overlooks(u: Value, v: Value, caseSensitive: bool)
    decreases u
  {
    || SeenAs(u, caseSensitive) == SeenAs(v, caseSensitive)
    || (u.VObject? && v.VObject? && u.members.Keys == v.members.Keys &&
        forall k | k in u.members :: Overlooks(u.members[k], v.members[k], false))
  }

  /** The difference of two values that a generated patch carries. */
  ghost function ValuePatch(from: Value, to: Value, caseSensitive: bool): Value
    decreases from
  {
    if !from.VObject? || !to.VObject? then to
    else
      var f, t := from.members, to.members;
      VObject(map k | k in f.Keys + t.Keys && !(k in f && k in t && Overlooks(f[k], t[k], caseSensitive)) ::
        if k !in t then VNull else if k !in f then t[k] else ValuePatch(f[k], t[k], false))
  }

  // ----- in which order the walk takes a name that both objects have

  /** How the walk takes a name that both objects have. */
  datatype Arrival = Together | FromFirst | ToFirst

  /** The names up to k, as they are sorted, that strcmp puts behind all the following ones up to k. */
  ghost function Peaks(names: set<Text>, k: Text, caseSensitive: bool): set<Text> {
    set e | e in names && CompareStrings(e, k, caseSensitive) <= 0 && Peak(names, e, k, caseSensitive)
  }

  ghost predicate Peak(names: set<Text>, e: Text, k: Text, caseSensitive: bool) {
    forall d | d in names && CompareStrings(e, d, caseSensitive) < 0 && CompareStrings(d, k, caseSensitive) <= 0 ::
      Strcmp(d, e) < 0
  }

  /**
   A list is held up at k by the names in front of k that strcmp puts behind it: both lists
   get to k at once if they are held up by the same names, and otherwise the list that the
   last of the other names, by strcmp, holds up gets there later.
   */
  ghost function ArrivalAt(from: set<Text>, to: set<Text>, k: Text, caseSensitive: bool): Arrival {
    var p, q := Peaks(from, k, caseSensitive), Peaks(to, k, caseSensitive);
    if p == q then Together
    else if Exceeds(q - p, p - q) then FromFirst
    else ToFirst
  }

  /** One of the names in a comes, for strcmp, behind all in b. */
  ghost predicate Exceeds(a: set<Text>, b: set<Text>) {
    exists e | e in a :: forall g | g in b :: Strcmp(g, e) < 0
  }

  /** The walk takes every name that both objects have from both at once. */
  ghost predicate InStep(f: map<Text, Value>, t: map<Text, Value>, caseSensitive: bool) {
    forall k | k in f && k in t :: ArrivalAt(f.Keys, t.Keys, k, caseSensitive).Together?
  }

  /**
   What generating asks of names: in each object that is walked they are told apart, and so
   are those inside each of the values that are compared. Below the top the walk never minds
   case.
   */
  ghost predicate Walkable(f: Value, t: Value, caseSensitive: bool)
    decreases f
  {
    f.VObject? && t.VObject? ==>
      && ToldApart(f.members.Keys, caseSensitive) && ToldApart(t.members.Keys, caseSensitive)
      && forall k | k in f.members && k in t.members &&
                    ArrivalAt(f.members.Keys, t.members.Keys, k, caseSensitive).Together? ::
        && (caseSensitive || (ApartIn(f.members[k], false) && ApartIn(t.members[k], false)))
        && (SeenAs(f.members[k], caseSensitive) != SeenAs(t.members[k], caseSensitive) ==>
          Walkable(f.members[k], t.members[k], false))
  }

  /** At each pair of objects that is walked the names are in step. */
  ghost predicate AllInStep(f: Value, t: Value, caseSensitive: bool)
    decreases f
  {
    f.VObject? && t.VObject? ==>
      && InStep(f.members, t.members, caseSensitive)
      && forall k | k in f.members && k in t.members && !Overlooks(f.members[k], t.members[k], caseSensitive) ::
        AllInStep(f.members[k], t.members[k], false)
  }

  /** What applying asks of names: at each pair of objects that is merged, they are told apart. */
  ghost predicate Mergeable(target: Value, patch: Value, caseSensitive: bool)
    decreases patch
  {
    patch.VObject? ==>
      var base := if target.VObject? then target.members else map[];
      && ToldApart(base.Keys + patch.members.Keys, caseSensitive)
      && forall k | k in patch.members && !patch.members[k].VNull? ::
        Mergeable(if k in base then base[k] else VNull, patch.members[k], caseSensitive)
  }

  function Sub(v: Value, k: Text): Value {
    if v.VObject? && k in v.members then v.members[k] else VNull
  }

  /**
   Every member of `to`, outside arrays, either is already there with an equal value, or
   is not null and safe in its turn.
   */
  predicate NullSafe(from: Value, to: Value)
    decreases to
  {
    to.VObject? ==>
      forall k | k in to.members ::
        (from.VObject? && k in from.members && from.members[k] == to.members[k])
        || (!to.members[k].VNull? && NullSafe(Sub(from, k), to.members[k]))
  }

  /**
   What the order of names asks, over null-safety: no member that both objects have is
   taken from `to` first, since the null for the other one follows and wins; and one that
   is taken from `from` first is given again in full, so it must hold no null. The walk
   minds case, or not, at the top only.
   */
  ghost predicate Kept(f: Value, t: Value, caseSensitive: bool)
    decreases f
  {
    f.VObject? && t.VObject? ==> forall k | k in f.members && k in t.members ::
      match ArrivalAt(f.members.Keys, t.members.Keys, k, caseSensitive)
      case Together => f.members[k] != t.members[k] ==> Kept(f.members[k], t.members[k], false)
      case FromFirst => !t.members[k].VNull? && NullSafe(VNull, t.members[k])
      case ToFirst => false
  }

  /** No difference between members that are taken together is one of case only, where the comparison does not mind it.
   */
  ghost predicate Noticed(f: Value, t: Value, caseSensitive: bool)
    decreases f
  {
    f.VObject? && t.VObject? ==>
      forall k | k in f.members && k in t.members && f.members[k] != t.members[k] &&
                 ArrivalAt(f.members.Keys, t.members.Keys, k, caseSensitive).Together? ::
        !Overlooks(f.members[k], t.members[k], caseSensitive) && Noticed(f.members[k], t.members[k], false)
  }

  /** What applying a generated patch asks of names: those of each pair of objects that is merged are told apart, and
   those inside what the patch brings in. */
  ghost predicate Fillable(f: Value, t: Value, caseSensitive: bool, merging: bool)
    decreases f
  {
    if !f.VObject? || !t.VObject? then Mergeable(VNull, t, merging)
    else
      && ToldApart(f.members.Keys + t.members.Keys, merging)
      && forall k | k in t.members ::
        if k !in f.members then Mergeable(VNull, t.members[k], merging)
        else
          match ArrivalAt(f.members.Keys, t.members.Keys, k, caseSensitive)
          case Together =>
            !Overlooks(f.members[k], t.members[k], caseSensitive) ==>
              Fillable(f.members[k], t.members[k], false, merging)
          case FromFirst => Mergeable(VNull, t.members[k], merging)
          case ToFirst => true
  }

  /** No member, outside arrays, is null. */
  predicate NoNullMember(v: Value) {
    v.VObject? ==> forall k | k in v.members :: !v.members[k].VNull? && NoNullMember(v.members[k])
  }
}
