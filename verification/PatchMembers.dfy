/**
 A generated patch for one member of an object, on any list of members: what it does, and
 exactly when that is what it was generated for.
 */
module PatchMembers {
  import opened Basics
  import opened Strings
  import opened Sorting
  import opened Tails
  import opened Json
  import opened Pointer
  import opened PointerDecoding
  import opened Readback
  import opened Patch
  import opened PatchFrames

  /** No member before the one named k is called k in another case. */
  ghost predicate Leads(ms: seq<Member>, k: Text) {
    forall a, b | 0 <= a < b < |ms| && ms[b].key == k :: Fold(ms[a].key) != Fold(k)
  }

  lemma LeadsFinds(ms: seq<Member>, k: Text)
    requires Distinct(ms) && FindKey(ms, k, true) < |ms|
    ensures Leads(ms, k) <==> FindKey(ms, k, false) == FindKey(ms, k, true)
    ensures FindKey(ms, k, false) <= FindKey(ms, k, true)
  {
    var i, f := FindKey(ms, k, true), FindKey(ms, k, false);
    StrcmpZero(k, ms[i].key);
    StrcmpZero(Fold(k), Fold(k));
    assert f <= i;
    StrcmpZero(Fold(k), Fold(ms[f].key));
    if f == i {
      forall a, b | 0 <= a < b < |ms| && ms[b].key == k
        ensures Fold(ms[a].key) != Fold(k)
      {
        assert b == i;
        StrcmpZero(Fold(k), Fold(ms[a].key));
      }
    }
  }

  /** Whatever a name that does not survive is read back as, the member found for it is another one. */
  lemma OtherFound(ms: seq<Member>, k: Text)
    requires !Survives(k)
    ensures var i := FindKey(ms, ReadBack(k), false); i < |ms| ==> ms[i].key != k
  {
    LostIsOther(k);
    var i := FindKey(ms, ReadBack(k), false);
    if i < |ms| {
      StrcmpZero(Fold(ReadBack(k)), Fold(ms[i].key));
    }
  }

  function KeyPath(k: Text): Text {
    [SLASH] + Encode(k)
  }

  lemma RemoveActs(ms: seq<Member>, tail: Tail, k: Text, caseSensitive: bool := true)
    ensures ApplyEdit(Object(ms, tail), Edit(REMOVE, KeyPath(k), None), caseSensitive) ==
      var i := FindKey(ms, ReadBack(k), false);
      if i == |ms| then Applied(13, Object(ms, tail))
        else Applied(0, Object(RemoveAt(ms, i), RemoveTail(|ms|, tail, i)))
  {
    hide DetachPath, Encode, DecodeInPlace, FindKey;
    EncodedAvoidsSlash(k);
    DetachHere(Object(ms, tail), Encode(k), caseSensitive);
  }

  lemma ObjectTakes(ms: seq<Member>, tail: Tail, name: Text, v: Json, caseSensitive: bool := true)
    ensures var r := AddBelow(Object(ms, tail), name, v, caseSensitive); r.Applied? ==> r.status == 0
  {}

  lemma AddActs(ms: seq<Member>, tail: Tail, k: Text, v: Json, caseSensitive: bool := true)
    ensures ApplyEdit(Object(ms, tail), Edit(ADD, KeyPath(k), Some(v)), caseSensitive) ==
      AddBelow(Object(ms, tail), ReadBack(k), Fresh(v), caseSensitive)
  {
    hide AddAt, Encode, DecodeInPlace, AddBelow, Fresh;
    ObjectTakes(ms, tail, ReadBack(k), Fresh(v), caseSensitive);
    EncodedAvoidsSlash(k);
    AddHere(Object(ms, tail), Encode(k), Fresh(v), caseSensitive);
  }

  lemma ReplaceActs(ms: seq<Member>, tail: Tail, k: Text, v: Json, caseSensitive: bool := true)
    ensures ApplyEdit(Object(ms, tail), Edit(REPLACE, KeyPath(k), Some(v)), caseSensitive) ==
      var i := FindKey(ms, ReadBack(k), false);
      if i == |ms| then Applied(13, Object(ms, tail))
      else AddBelow(Object(RemoveAt(ms, i), RemoveTail(|ms|, tail, i)), ReadBack(k), Fresh(v), caseSensitive)
  {
    hide DetachPath, AddAt, Encode, DecodeInPlace, FindKey, RemoveTail, RemoveAt, AddBelow, Fresh;
    EncodedAvoidsSlash(k);
    DetachHere(Object(ms, tail), Encode(k), caseSensitive);
    var i := FindKey(ms, ReadBack(k), false);
    if i < |ms| {
      AddHere(Object(RemoveAt(ms, i), RemoveTail(|ms|, tail, i)), Encode(k), Fresh(v), caseSensitive);
      ObjectTakes(RemoveAt(ms, i), RemoveTail(|ms|, tail, i), ReadBack(k), Fresh(v), caseSensitive);
    }
  }

  /** The patch succeeded and left an object of these members. */
  ghost predicate Leaves(r: Applied, m: map<Text, Value>) {
    Succeeds(r) && Unique(r.root) && Denote(r.root) == VObject(m)
  }

  lemma DropInjective(m: map<Text, Value>, a: Text, b: Text)
    requires a in m && b in m
    ensures m - {a} == m - {b} <==> a == b
  {
    if a != b {
      assert b in m - {a} && b !in m - {b};
    }
  }

  /** Removing a member works exactly for names that survive and that no earlier member bears in another case. */
  lemma RemovedExactly(ms: seq<Member>, tail: Tail, k: Text)
    requires UniqueMembers(ms) && k in ToMap(ms)
    ensures Leaves(ApplyEdit(Object(ms, tail), Edit(REMOVE, KeyPath(k), None)), ToMap(ms) - {k}) <==>
      Survives(k) && Leads(ms, k)
  {
    hide UniqueMembers, Unique, ToMap, Denote, Survives, ReadBack, FindKey, RemoveAt, Leads;
    DistinctNames(ms);
    RemoveActs(ms, tail, k);
    LookupMap(ms, k);
    LeadsFinds(ms, k);
    DecodeUndoesEncodeHere(k);
    OtherMember(ms, k);
    var i := FindKey(ms, ReadBack(k), false);
    if i < |ms| {
      RemovedMap(ms, i);
      MapOf(ms);
      DropInjective(ToMap(ms), ms[i].key, k);
      SameMember(ms, i, k);
      ObjectLeaves(RemoveAt(ms, i), RemoveTail(|ms|, tail, i), ToMap(ms) - {k});
    }
  }

  lemma DecodeUndoesEncodeHere(k: Text)
    ensures ReadBack(k) == k <==> Survives(k)
  {
    DecodeUndoesEncode(k);
  }

  lemma OtherMember(ms: seq<Member>, k: Text)
    ensures var i := FindKey(ms, ReadBack(k), false); !Survives(k) && i < |ms| ==> ms[i].key != k
  {
    if !Survives(k) {
      OtherFound(ms, k);
    }
  }

  lemma SameMember(ms: seq<Member>, i: nat, k: Text)
    requires Distinct(ms) && i < |ms| && FindKey(ms, k, true) < |ms|
    ensures ms[i].key == k <==> i == FindKey(ms, k, true)
  {
    StrcmpZero(k, ms[FindKey(ms, k, true)].key);
  }

  lemma ObjectLeaves(ms: seq<Member>, tail: Tail, m: map<Text, Value>)
    ensures Leaves(Applied(0, Object(ms, tail)), m) <==> UniqueMembers(ms) && ToMap(ms) == m
  {}

  /** What the list means after an append, wherever that arrives. */
  lemma AppendMeans(ms: seq<Member>, tail: Tail, m: Member)
    requires UniqueMembers(ms) && m.key !in ToMap(ms) && Unique(m.value) && TailFits(tail, |ms|)
    ensures var s := Append(ms, tail, m);
      && UniqueMembers(s)
      && (forall k | k in ToMap(s) && k != m.key :: k in ToMap(ms) && ToMap(s)[k] == ToMap(ms)[k])
      && (ToMap(s) == ToMap(ms)[m.key := Denote(m.value)] <==> ms == [] || tail.Last?)
  {
    hide UniqueMembers, Unique, ToMap, Denote;
    if ms == [] || tail.Last? {
      assert ms + [m] == if ms == [] then [m] else ms + [m];
      AppendedMap(ms, m);
    } else if tail.Middle? {
      var head := ms[..tail.at+1];
      PrefixMap(ms, tail.at + 1);
      AppendedMap(head, m);
    }
  }

  lemma PrefixMap(ms: seq<Member>, n: nat)
    requires UniqueMembers(ms) && 0 < n < |ms|
    ensures UniqueMembers(ms[..n]) && ms[n].key in ToMap(ms) && ms[n].key !in ToMap(ms[..n])
    ensures forall k | k in ToMap(ms[..n]) :: k in ToMap(ms) && ToMap(ms[..n])[k] == ToMap(ms)[k]
  {
    hide Unique, ToMap, Denote;
    MapOf(ms);
    MapOf(ms[..n]);
    forall k | k in ToMap(ms[..n])
      ensures k in ToMap(ms) && ToMap(ms[..n])[k] == ToMap(ms)[k]
    {
      var i :| 0 <= i < n && ms[..n][i].key == k;
    }
  }

  /** Linking a value in under a name: other names keep their value or go, and all goes well exactly if the tail is the
   end. */
  lemma AddBelowMeans(ms: seq<Member>, tail: Tail, name: Text, v: Json)
    requires UniqueMembers(ms) && Unique(v) && TailFits(tail, |ms|)
    ensures var r := AddBelow(Object(ms, tail), name, v, true);
      && (r.Applied? ==> r.status == 0 && r.root.Object? && UniqueMembers(r.root.members))
      && (r.Applied? ==>
        forall k | k in ToMap(r.root.members) && k != name ::
        k in ToMap(ms) && ToMap(r.root.members)[k] == ToMap(ms)[k])
      && (Leaves(r, ToMap(ms)[name := Denote(v)]) <==> Ends(ms, tail, name, true))
  {
    hide UniqueMembers, Unique, ToMap, Denote, FindKey, RemoveAt, RemoveTail, Append, TailFits, LinkMember, Leaves,
      AddBelow, Distinct;
    DistinctNames(ms);
    LookupMap(ms, name);
    AddBelowLinks(ms, tail, name, v);
    var i := FindKey(ms, name, true);
    if i < |ms| {
      RemovedMap(ms, i);
      TailsFit(ms, tail, i, true);
      LinkMemberMeans(RemoveAt(ms, i), RemoveTail(|ms|, tail, i), Entry(name, v));
      assert (ToMap(ms) - {name})[name := Denote(v)] == ToMap(ms)[name := Denote(v)];
      LastOfRest(ms, tail, i);
    } else {
      LinkMemberMeans(ms, tail, Entry(name, v));
    }
  }

  lemma AddBelowLinks(ms: seq<Member>, tail: Tail, name: Text, v: Json)
    ensures var i := FindKey(ms, name, true);
      AddBelow(Object(ms, tail), name, v, true) ==
        if i < |ms| then LinkMember(RemoveAt(ms, i), RemoveTail(|ms|, tail, i), Entry(name, v))
          else LinkMember(ms, tail, Entry(name, v))
  {
    hide LinkMember, FindKey, RemoveAt, RemoveTail;
  }

  /** The list without the member of that name, if there is one, is empty or can be appended to. */
  ghost predicate Ends(ms: seq<Member>, tail: Tail, name: Text, caseSensitive: bool) {
    var i := FindKey(ms, name, caseSensitive);
    if i < |ms| then RemoveTail(|ms|, tail, i).Last? else ms == [] || tail.Last?
  }

  lemma LinkMemberMeans(ms: seq<Member>, tail: Tail, m: Member)
    requires UniqueMembers(ms) && m.key !in ToMap(ms) && Unique(m.value) && TailFits(tail, |ms|)
    ensures var r := LinkMember(ms, tail, m);
      && (r.Applied? ==> r.status == 0 && r.root.Object? && UniqueMembers(r.root.members))
      && (r.Applied? ==>
        forall k | k in ToMap(r.root.members) && k != m.key ::
          k in ToMap(ms) && ToMap(r.root.members)[k] == ToMap(ms)[k])
      && (Leaves(r, ToMap(ms)[m.key := Denote(m.value)]) <==> ms == [] || tail.Last?)
  {
    hide UniqueMembers, Unique, ToMap, Denote;
    AppendMeans(ms, tail, m);
    ObjectLeaves(Append(ms, tail, m), AppendTail(ms, tail), ToMap(ms)[m.key := Denote(m.value)]);
  }

  /** Adding a member works exactly for names that survive, into objects whose list can be appended to. */
  lemma AddedExactly(ms: seq<Member>, tail: Tail, k: Text, v: Json)
    requires UniqueMembers(ms) && k !in ToMap(ms) && Unique(v) && TailFits(tail, |ms|)
    ensures Leaves(ApplyEdit(Object(ms, tail), Edit(ADD, KeyPath(k), Some(v))), ToMap(ms)[k := Denote(v)]) <==>
      Survives(k) && (ms == [] || tail.Last?)
  {
    hide UniqueMembers, Unique, ToMap, Denote, FindKey, ReadBack, Survives, AddBelow, Fresh, TailFits;
    AddActs(ms, tail, k, v);
    FreshMeans(v);
    DecodeUndoesEncodeHere(k);
    AddBelowMeans(ms, tail, ReadBack(k), Fresh(v));
    LookupMap(ms, k) by { DistinctNames(ms); }
    var r := AddBelow(Object(ms, tail), ReadBack(k), Fresh(v), true);
    if r.Applied? {
      ObjectLeaves(r.root.members, r.root.tail, ToMap(ms)[k := Denote(v)]);
    }
  }

  /** Replacing a member's value works exactly where removing it does and the list that is left can be appended to. */
  lemma ReplacedExactly(ms: seq<Member>, tail: Tail, k: Text, v: Json)
    requires UniqueMembers(ms) && k in ToMap(ms) && ToMap(ms)[k] != Denote(v) && Unique(v) && TailFits(tail, |ms|)
    ensures Leaves(ApplyEdit(Object(ms, tail), Edit(REPLACE, KeyPath(k), Some(v))), ToMap(ms)[k := Denote(v)]) <==>
      Survives(k) && Leads(ms, k) && Ends(ms, tail, k, true)
  {
    hide UniqueMembers, Unique, ToMap, Denote, FindKey, ReadBack, Survives, AddBelow, Fresh, TailFits, Leads,
      RemoveAt, RemoveTail;
    DistinctNames(ms);
    ReplaceActs(ms, tail, k, v);
    FreshMeans(v);
    DecodeUndoesEncodeHere(k);
    OtherMember(ms, k);
    LookupMap(ms, k);
    LeadsFinds(ms, k);
    var i := FindKey(ms, ReadBack(k), false);
    if i < |ms| {
      SameMember(ms, i, k);
      TailsFit(ms, tail, i, true);
      if ms[i].key == k {
        ReplacedRight(ms, tail, i, Fresh(v));
      } else {
        ReplacedWrong(ms, tail, i, k, ReadBack(k), Fresh(v));
      }
    }
  }

  /** With the right member out, the rest is an addition. */
  lemma ReplacedRight(ms: seq<Member>, tail: Tail, i: nat, v: Json)
    requires UniqueMembers(ms) && i < |ms| && Unique(v) && TailFits(RemoveTail(|ms|, tail, i), |ms| - 1)
    ensures Leaves(AddBelow(Object(RemoveAt(ms, i), RemoveTail(|ms|, tail, i)), ms[i].key, v, true),
      ToMap(ms)[ms[i].key := Denote(v)]) <==>
      RemoveTail(|ms|, tail, i).Last?
  {
    hide UniqueMembers, Unique, ToMap, Denote, FindKey, AddBelow, RemoveTail, Leaves;
    var k, rest := ms[i].key, RemoveAt(ms, i);
    RemovedMap(ms, i);
    AddBelowMeans(rest, RemoveTail(|ms|, tail, i), k, v);
    assert (ToMap(ms) - {k})[k := Denote(v)] == ToMap(ms)[k := Denote(v)];
    LookupMap(rest, k) by { DistinctNames(rest); }
    LastOfRest(ms, tail, i);
  }

  /** With another member out, either that one is missing in the end or the value is the old one. */
  lemma ReplacedWrong(ms: seq<Member>, tail: Tail, i: nat, k: Text, name: Text, v: Json)
    requires UniqueMembers(ms) && i < |ms| && ms[i].key != k && k in ToMap(ms)
    requires Unique(v) && TailFits(RemoveTail(|ms|, tail, i), |ms| - 1) && ToMap(ms)[k] != Denote(v)
    ensures !Leaves(AddBelow(Object(RemoveAt(ms, i), RemoveTail(|ms|, tail, i)), name, v, true),
      ToMap(ms)[k := Denote(v)])
  {
    hide UniqueMembers, Unique, ToMap, Denote, FindKey, AddBelow, RemoveTail;
    var rest, left := RemoveAt(ms, i), RemoveTail(|ms|, tail, i);
    RemovedMap(ms, i);
    DistinctNames(ms);
    MapOf(ms);
    AddBelowMeans(rest, left, name, v);
    var r := AddBelow(Object(rest, left), name, v, true);
    if r.Applied? {
      ObjectLeaves(r.root.members, r.root.tail, ToMap(ms)[k := Denote(v)]);
      var m := ToMap(r.root.members);
      if name == k {
        assert ms[i].key in ToMap(ms)[k := Denote(v)] && ms[i].key !in m;
      } else {
        assert k in m ==> m[k] == ToMap(ms)[k];
        assert ToMap(ms)[k := Denote(v)][k] == Denote(v);
      }
    }
  }

  lemma LastOfRest(ms: seq<Member>, tail: Tail, i: nat)
    requires i < |ms|
    ensures RemoveAt(ms, i) == [] ==> RemoveTail(|ms|, tail, i).Last?
  {}
}
