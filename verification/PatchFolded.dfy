/**
 Generating and applying patches without regard to case. The patches lead to the goal with
 the names that the first tree has for what is alike: in the mode's own sense, to the goal.
 */
module PatchFolded {
  import opened Strings
  import opened Sorting
  import opened Tails
  import opened Json
  import opened CompareProofs
  import opened Folding
  import opened Pointer
  import opened Patch
  import opened PatchShapes
  import opened PatchRoundTrip
  import opened PatchConverse
  import opened PatchExact

  /** The second tree, where it has a name of the first in another case under the name that the first has. */
  function Recast(from: Json, to: Json): Json
    decreases (to)
  {
    match (from, to)
    case (Array(s), Array(t)) => Array(RecastItems(s, t))
    case (Object(s, _), Object(t, tail)) => Object(RecastMembers(s, t), tail)
    case _ => to
  }

  function RecastItems(s: seq<Json>, t: seq<Json>): (r: seq<Json>)
    ensures |r| == |t|
    ensures forall i | 0 <= i < |t| :: r[i] == if i < |s| then Recast(s[i], t[i]) else t[i]
    decreases t
  {
    seq(|t|, i requires 0 <= i < |t| => if i < |s| then Recast(s[i], t[i]) else t[i])
  }

  function RecastMembers(s: seq<Member>, t: seq<Member>): (r: seq<Member>)
    ensures |r| == |t| && forall i | 0 <= i < |t| :: r[i] == RecastMember(s, t[i])
    decreases t, 1
  {
    seq(|t|, i requires 0 <= i < |t| => RecastMember(s, t[i]))
  }

  function RecastMember(s: seq<Member>, m: Member): Member
    decreases m
  {
    var k := FindKey(s, m.key, false);
    if k < |s| then Entry(s[k].key, Recast(s[k].value, m.value)) else m
  }

  // ----- the same goal in the mode's own sense

  lemma RecastKey(s: seq<Member>, m: Member)
    ensures Fold(RecastMember(s, m).key) == Fold(m.key)
  {
    var k := FindKey(s, m.key, false);
    if k < |s| {
      StrcmpZero(Fold(m.key), Fold(s[k].key));
    }
  }

  lemma {:induction false} RecastFolds(from: Json, to: Json)
    ensures FoldNames(Recast(from, to)) == FoldNames(to)
    decreases (to)
  {
    match (from, to)
    case (Array(s), Array(t)) =>
      forall i | 0 <= i < |t|
        ensures FoldNames(RecastItems(s, t)[i]) == FoldNames(t[i])
      {
        if i < |s| {
          RecastFolds(s[i], t[i]);
        }
      }
      assert FoldItems(RecastItems(s, t)) == FoldItems(t);
    case (Object(s, _), Object(t, _)) =>
      forall i | 0 <= i < |t|
        ensures FoldMembers(RecastMembers(s, t))[i] == FoldMembers(t)[i]
      {
        RecastKey(s, t[i]);
        var k := FindKey(s, t[i].key, false);
        if k < |s| {
          RecastFolds(s[k].value, t[i].value);
        }
      }
      assert FoldMembers(RecastMembers(s, t)) == FoldMembers(t);
    case _ =>
  }

  lemma RecastSeen(from: Json, to: Json)
    requires UniqueIn(to, false)
    ensures UniqueIn(Recast(from, to), false)
    ensures FoldValue(Denote(Recast(from, to))) == FoldValue(Denote(to))
  {
    hide Recast, FoldNames, Denote, UniqueIn, FoldValue;
    RecastFolds(from, to);
    SeenMeans(to, false);
    SeenMeans(Recast(from, to), false);
  }

  // ----- names alike are the same

  lemma UniqueParts(j: Json)
    requires UniqueIn(j, false)
    ensures j.Array? ==> forall i | 0 <= i < |j.items| :: UniqueIn(j.items[i], false)
    ensures j.Object? ==>
      && UniqueMembers(j.members) && ToldApart(ToMap(j.members).Keys, false)
      && forall i | 0 <= i < |j.members| :: UniqueIn(j.members[i].value, false)
  {
    if j.Array? {
      forall i | 0 <= i < |j.items|
        ensures UniqueIn(j.items[i], false)
      {
        assert Denote(j).items[i] == Denote(j.items[i]);
      }
    } else if j.Object? {
      hide ToMap;
      ObjectMeans(j);
      MapOf(j.members);
    }
  }

  /** The member of that name, or of one alike. */
  lemma FindAlike(s: seq<Member>, k: Text, i: nat)
    requires Distinct(s) && ToldApart(ToMap(s).Keys, false) && i < |s| && Fold(s[i].key) == Fold(k)
    ensures FindKey(s, k, false) == i
  {
    hide ToMap;
    MapOf(s);
    StrcmpZero(Fold(k), Fold(s[i].key));
    var f := FindKey(s, k, false);
    StrcmpZero(Fold(k), Fold(s[f].key));
  }

  lemma {:induction false} RecastAgrees(from: Json, to: Json)
    requires UniqueIn(from, false) && UniqueIn(to, false)
    ensures Agree(Denote(from), Denote(Recast(from, to)), false)
    decreases (to)
  {
    hide UniqueIn;
    match (from, to)
    case (Array(s), Array(t)) =>
      UniqueParts(from);
      UniqueParts(to);
      forall i | 0 <= i < |s| && i < |t|
        ensures Agree(Denote(from).items[i], Denote(Recast(from, to)).items[i], false)
      {
        RecastAgrees(s[i], t[i]);
      }
    case (Object(s, _), Object(t, _)) =>
      hide ToMap, Recast;
      UniqueParts(from);
      UniqueParts(to);
      RecastSeen(from, to);
      UniqueParts(Recast(from, to));
      RecastObject(from, to);
      NamesAgree(s, t);
      forall k | k in ToMap(s) && k in ToMap(RecastMembers(s, t))
        ensures Agree(ToMap(s)[k], ToMap(RecastMembers(s, t))[k], false)
      {
        var i, n := SharedMember(s, t, k);
        RecastAgrees(s[i].value, t[n].value);
      }
      ObjectMeans(from);
      ObjectMeans(Recast(from, to));
    case _ =>
  }

  lemma RecastObject(from: Json, to: Json)
    requires from.Object? && to.Object?
    ensures Recast(from, to) == Object(RecastMembers(from.members, to.members), to.tail)
  {}

  lemma NamesAgree(s: seq<Member>, t: seq<Member>)
    requires Distinct(s) && ToldApart(ToMap(s).Keys, false) && Distinct(RecastMembers(s, t))
    requires ToldApart(ToMap(RecastMembers(s, t)).Keys, false)
    ensures ToldApart(ToMap(s).Keys + ToMap(RecastMembers(s, t)).Keys, false)
  {
    hide ToMap, Recast;
    var r := RecastMembers(s, t);
    MapOf(s);
    MapOf(r);
    forall a, b | a in ToMap(s) && b in ToMap(r) && Fold(a) == Fold(b)
      ensures a == b
    {
      var i :| 0 <= i < |s| && s[i].key == a;
      var n :| 0 <= n < |r| && r[n].key == b;
      RecastKey(s, t[n]);
      FindAlike(s, t[n].key, i);
    }
  }

  lemma SharedMember(s: seq<Member>, t: seq<Member>, k: Text) returns (i: nat, n: nat)
    requires Distinct(s) && ToldApart(ToMap(s).Keys, false) && Distinct(RecastMembers(s, t))
    requires k in ToMap(s) && k in ToMap(RecastMembers(s, t))
    ensures i < |s| && n < |t| && ToMap(s)[k] == Denote(s[i].value)
    ensures ToMap(RecastMembers(s, t))[k] == Denote(Recast(s[i].value, t[n].value))
  {
    hide ToMap, Recast, Denote;
    var r := RecastMembers(s, t);
    MapOf(s);
    MapOf(r);
    i :| 0 <= i < |s| && s[i].key == k;
    n :| 0 <= n < |r| && r[n].key == k;
    RecastKey(s, t[n]);
    FindAlike(s, t[n].key, i);
  }

  // ----- the same patches

  /** Sorting does not see what names are recast to. */
  lemma SortRecast(s: seq<Member>, t: seq<Member>)
    ensures MergeSort(RecastMembers(s, t), false) == RecastMembers(s, MergeSort(t, false))
  {
    hide MergeSort, RecastMember;
    var r := RecastMembers(s, t);
    var tags, retags := Tagged(t), Tagged(r);
    var folded := seq(|t|, i requires 0 <= i < |t| => Entry(Fold(t[i].key), i));
    forall i | 0 <= i < |t|
      ensures Fold(retags[i].key) == Fold(tags[i].key)
    {
      RecastKey(s, t[i]);
    }
    assert Image(tags, folded, (x: int) => x) && Image(retags, folded, (x: int) => x);
    SortImage(tags, folded, (x: int) => x);
    SortImage(retags, folded, (x: int) => x);
    SortedPlaces(t, false);
    SortedPlaces(r, false);
    assert forall i | 0 <= i < |t| :: MergeSort(r, false)[i] == RecastMembers(s, MergeSort(t, false))[i];
  }

  /** What is left of both sides: sorted, told apart, and of what is alike either both are left or none. */
  ghost predicate Left(s: seq<Member>, x: seq<Member>, y: seq<Member>) {
    && Sorted(x, false) && Sorted(y, false) && (forall m | m in x :: m in s)
    && (forall m | m in x :: UniqueIn(m.value, false)) && (forall m | m in y :: UniqueIn(m.value, false))
    && (forall i, j | 0 <= i < j < |y| :: Fold(y[i].key) != Fold(y[j].key))
    && (forall i, n | 0 <= i < |s| && 0 <= n < |y| && Fold(s[i].key) == Fold(y[n].key) :: s[i] in x)
  }

  lemma OrderedApart(a: Member, b: Member, c: Member)
    requires Sorting.Compare(a, b, false) < 0 && Sorting.Compare(b, c, false) <= 0
    ensures Fold(a.key) != Fold(c.key)
  {
    StrcmpTransitive(Fold(a.key), Fold(b.key), Fold(c.key));
    StrcmpZero(Fold(a.key), Fold(c.key));
  }

  lemma LeftTails(s: seq<Member>, x: seq<Member>, y: seq<Member>)
    requires Left(s, x, y) && (x != [] || y != [])
    ensures var diff := Turn(x, y, false);
      Left(s, if diff <= 0 then x[1..] else x, if diff >= 0 then y[1..] else y)
  {
    hide UniqueIn, CompareStrings;
    var diff := Turn(x, y, false);
    if diff < 0 {
      LeftOfFirst(s, x, y);
    } else if diff == 0 {
      LeftOfBoth(s, x, y);
    } else {
      TailSorted(y, false);
      TailMembers(y);
    }
  }

  lemma TailMembers(x: seq<Member>)
    requires x != []
    ensures forall m | m in x[1..] :: m in x
    ensures forall m | m in x && m != x[0] :: m in x[1..]
    ensures forall i | 0 <= i < |x| - 1 :: x[1..][i] == x[i+1]
  {
    forall m | m in x && m != x[0]
      ensures m in x[1..]
    {
      var i :| 0 <= i < |x| && x[i] == m;
      assert x[1..][i-1] == m;
    }
  }

  lemma LeftOfFirst(s: seq<Member>, x: seq<Member>, y: seq<Member>)
    requires Left(s, x, y) && x != [] && Turn(x, y, false) < 0
    ensures Left(s, x[1..], y)
  {
    hide UniqueIn;
    TailSorted(x, false);
    TailMembers(x);
    forall i, n | 0 <= i < |s| && 0 <= n < |y| && Fold(s[i].key) == Fold(y[n].key)
      ensures s[i] in x[1..]
    {
      HeadAlike(x[0], y, Turn(x, y, false), n);
    }
  }

  lemma LeftOfBoth(s: seq<Member>, x: seq<Member>, y: seq<Member>)
    requires Left(s, x, y) && x != [] && y != [] && Turn(x, y, false) == 0
    ensures Left(s, x[1..], y[1..])
  {
    hide UniqueIn;
    TailSorted(x, false);
    TailSorted(y, false);
    TailMembers(x);
    TailMembers(y);
    forall i, n | 0 <= i < |s| && 0 <= n < |y[1..]| && Fold(s[i].key) == Fold(y[1..][n].key)
      ensures s[i] in x[1..]
    {
      HeadAlike(x[0], y, 0, n + 1);
    }
  }

  /** A head that comes first is alike to nothing behind it; one that comes out even is alike to that alone. */
  lemma HeadAlike(m: Member, y: seq<Member>, diff: int, k: nat)
    requires Sorted(y, false) && k < |y| && diff <= 0 && diff == CompareStrings(m.key, y[0].key, false)
    requires forall i, j | 0 <= i < j < |y| :: Fold(y[i].key) != Fold(y[j].key)
    requires diff == 0 ==> k > 0
    ensures Fold(m.key) != Fold(y[k].key)
  {
    StrcmpZero(Fold(m.key), Fold(y[0].key));
    StrcmpZero(Fold(m.key), Fold(y[k].key));
    if diff < 0 && k > 0 {
      OrderedApart(m, y[0], y[k]);
    }
  }

  /** What is added is alike to nothing on the other side, so it is not recast. */
  lemma AddedAsIs(s: seq<Member>, x: seq<Member>, y: seq<Member>)
    requires Left(s, x, y) && y != [] && Turn(x, y, false) > 0
    ensures RecastMember(s, y[0]) == y[0]
  {
    hide UniqueIn, Recast;
    var k := FindKey(s, y[0].key, false);
    if k < |s| {
      StrcmpZero(Fold(y[0].key), Fold(s[k].key));
      var a :| 0 <= a < |x| && x[a] == s[k];
      AddedAlone(x, y, a);
    }
  }

  lemma AddedAlone(x: seq<Member>, y: seq<Member>, a: nat)
    requires Sorted(x, false) && y != [] && Turn(x, y, false) > 0 && a < |x|
    ensures Fold(x[a].key) != Fold(y[0].key)
  {
    StrcmpZero(Fold(x[0].key), Fold(y[0].key));
    CompareTotal(x[0], y[0], false);
    if a > 0 {
      OrderedApart(y[0], x[0], x[a]);
    }
  }

  lemma SharedRecast(s: seq<Member>, x: seq<Member>, y: seq<Member>)
    requires Left(s, x, y) && x != [] && y != [] && Turn(x, y, false) == 0
    requires Distinct(s) && ToldApart(ToMap(s).Keys, false)
    ensures RecastMember(s, y[0]).value == Recast(x[0].value, y[0].value)
  {
    hide UniqueIn, Recast, ToMap;
    StrcmpZero(Fold(x[0].key), Fold(y[0].key));
    assert x[0] in s;
    var i :| 0 <= i < |s| && s[i] == x[0];
    FindAlike(s, y[0].key, i);
  }

  /** The patches for the recast goal are the patches for the goal. */
  lemma {:induction false} RecastEdits(path: Text, from: Json, to: Json)
    requires UniqueIn(from, false) && UniqueIn(to, false)
    ensures CreateEdits(path, from, Recast(from, to), false) == CreateEdits(path, from, to, false)
    decreases Depth(from), 1, 0
  {
    hide UniqueIn, MergeSort;
    match (from, to)
    case (Array(s), Array(t)) =>
      UniqueParts(from);
      UniqueParts(to);
      ItemsRecast(path, s, t, 0);
    case (Object(s, _), Object(t, _)) =>
      UniqueParts(from);
      UniqueParts(to);
      SortPermutes(s, false);
      var x, y := MergeSort(s, false), MergeSort(t, false);
      forall m | m in x
        ensures m.value < from && Depth(m.value) < Depth(from)
      {
        SameElements(s, x, m);
      }
      SortRecast(s, t);
      LeftAtFirst(s, t);
      MembersRecast(from, path, s, x, y);
    case _ =>
  }

  lemma LeftAtFirst(s: seq<Member>, t: seq<Member>)
    requires UniqueMembers(s) && ToldApart(ToMap(s).Keys, false) && forall i | 0 <= i < |s| ::
      UniqueIn(s[i].value, false)
    requires UniqueMembers(t) && ToldApart(ToMap(t).Keys, false) && forall i | 0 <= i < |t| ::
      UniqueIn(t[i].value, false)
    ensures Left(s, MergeSort(s, false), MergeSort(t, false))
  {
    hide UniqueIn, MergeSort, ToMap, Unique;
    var x, y := MergeSort(s, false), MergeSort(t, false);
    SortOrders(s, false);
    SortOrders(t, false);
    SortPermutes(s, false);
    SortPermutes(t, false);
    forall m | m in x
      ensures m in s
    {
      SameElements(s, x, m);
    }
    forall m | m in y
      ensures m in t
    {
      SameElements(t, y, m);
    }
    forall i | 0 <= i < |s|
      ensures s[i] in x
    {
      SameElements(s, x, s[i]);
    }
    PermutedMap(t, y);
    MapOf(y);
  }

  lemma {:induction false} ItemsRecast(path: Text, s: seq<Json>, t: seq<Json>, index: nat)
    requires forall i | 0 <= i < |s| :: UniqueIn(s[i], false)
    requires forall i | 0 <= i < |t| :: UniqueIn(t[i], false)
    ensures ItemEdits(path, s, RecastItems(s, t), index, false) == ItemEdits(path, s, t, index, false)
    decreases 1 + DeepestItem(s), 0, |s| + |t|
  {
    hide UniqueIn, Digits, Encode, CreateEdits, Recast;
    var r := RecastItems(s, t);
    if s != [] && t != [] {
      RecastEdits(path + [SLASH] + Digits(index), s[0], t[0]);
      DeepestItemIsLeast(s[1..], DeepestItem(s));
      ItemsRecast(path, s[1..], t[1..], index + 1);
      assert r[1..] == RecastItems(s[1..], t[1..]);
    } else if s == [] {
      assert r == t;
    } else {
      assert r == [];
    }
  }

  lemma {:induction false} MembersRecast(whole: Json, path: Text, s: seq<Member>, x: seq<Member>, y: seq<Member>)
    requires forall m | m in x :: m.value < whole && Depth(m.value) < Depth(whole)
    requires Distinct(s) && ToldApart(ToMap(s).Keys, false) && Left(s, x, y)
    ensures MemberEdits(whole, path, x, RecastMembers(s, y), false) == MemberEdits(whole, path, x, y, false)
    decreases Depth(whole), 0, |x| + |y|
  {
    hide UniqueIn, HeadEdits, MemberEdits, ToMap, Left, RecastMember;
    var r := RecastMembers(s, y);
    MemberEditsUnfold(whole, path, x, y, false);
    MemberEditsUnfold(whole, path, x, r, false);
    if x != [] || y != [] {
      var diff := Turn(x, y, false);
      var x', y' := if diff <= 0 then x[1..] else x, if diff >= 0 then y[1..] else y;
      SameTurnRecast(s, x, y);
      HeadRecast(whole, path, s, x, y);
      LeftTails(s, x, y);
      MembersRecast(whole, path, s, x', y');
      assert RecastMembers(s, y') == if diff >= 0 then r[1..] else r;
    }
  }

  lemma SameTurnRecast(s: seq<Member>, x: seq<Member>, y: seq<Member>)
    requires x != [] || y != []
    ensures Turn(x, RecastMembers(s, y), false) == Turn(x, y, false)
  {
    hide RecastMember;
    if y != [] {
      RecastKey(s, y[0]);
    }
  }

  lemma {:induction false} HeadRecast(whole: Json, path: Text, s: seq<Member>, x: seq<Member>, y: seq<Member>)
    requires forall m | m in x :: m.value < whole && Depth(m.value) < Depth(whole)
    requires Distinct(s) && ToldApart(ToMap(s).Keys, false) && Left(s, x, y) && (x != [] || y != [])
    ensures var diff := Turn(x, y, false);
      HeadEdits(whole, path, x, RecastMembers(s, y), diff, false) == HeadEdits(whole, path, x, y, diff, false)
    decreases Depth(whole), 0, 0
  {
    hide UniqueIn, CreateEdits, Encode, ToMap, RecastMember, Recast;
    var diff := Turn(x, y, false);
    if diff == 0 {
      SharedRecast(s, x, y);
      assert y[0] in y;
      RecastEdits(path + [SLASH] + Encode(x[0].key), x[0].value, y[0].value);
    } else if diff > 0 {
      AddedAsIs(s, x, y);
    }
  }

  // ----- the round trip

  /**
   RFC 6902, section 4, without regard to case: where no object has two names alike up to
   case and every name that is removed, added or replaced survives, patches that are
   generated and applied in that mode return success on every copy. They leave the goal, with the
   names of the first tree for what is alike, which the mode cannot tell from the goal.
   */
  lemma FoldedRoundTrip(copy: Json, from: Json, to: Json)
    requires Ready(copy) && UniqueIn(from, false) && UniqueIn(to, false) && Denote(copy) == Denote(from)
    requires NamesSurvive(Denote(from), Denote(Recast(from, to)))
    ensures Reaches(ApplyPatches(copy, GeneratePatches(from, to, false), false), Recast(from, to))
    ensures FoldValue(Denote(Recast(from, to))) == FoldValue(Denote(to))
  {
    hide CreateEdits, ApplyAll, Reaches, Denote, Unique, Recast, NamesSurvive, Fits, ApartIn, ComposeAll;
    RecastSeen(from, to);
    RecastAgrees(from, to);
    RecastEdits([], from, to);
    ReadyUnique(copy);
    SurvivingFits(copy, Denote(Recast(from, to)), false);
    RoundTrip(copy, from, Recast(from, to), false);
  }
}
