/** There is nothing to patch exactly if the data are equal, in either mode. */
module PatchNothing {
  import opened Strings
  import opened Sorting
  import opened Json
  import opened Folding
  import opened Pointer
  import opened Patch
  import opened PatchShapes
  import opened PatchRoundTrip
  import opened PatchRemovals

  // ----- no patches, no difference

  lemma {:induction false} NoneMeansSame(path: Text, from: Json, to: Json)
    requires Unique(from) && Unique(to) && CreateEdits(path, from, to, true) == []
    ensures Denote(from) == Denote(to)
    decreases Depth(from), 1, 0
  {
    hide ItemEdits, MemberEdits, MergeSort;
    match (from, to)
    case (Array(s), Array(t)) =>
      NoItemsMeanSame(path, s, t, 0);
      assert Denote(from).items == Denote(to).items;
    case (Object(s, _), Object(t, _)) =>
      ListOkSorted(s);
      ListOkSorted(t);
      DeeperMembers(from);
      NoMembersMeanSame(path, from, MergeSort(s, true), MergeSort(t, true));
      ObjectMeans(from);
      ObjectMeans(to);
    case _ => ReplacedEdits(path, from, to);
  }

  lemma {:induction false} NoItemsMeanSame(path: Text, s: seq<Json>, t: seq<Json>, index: nat)
    requires (forall i | 0 <= i < |s| :: Unique(s[i])) && (forall i | 0 <= i < |t| :: Unique(t[i]))
    requires ItemEdits(path, s, t, index, true) == []
    ensures |s| == |t| && forall i | 0 <= i < |s| :: Denote(s[i]) == Denote(t[i])
    decreases 1 + DeepestItem(s), 0, |s| + |t|
  {
    hide CreateEdits, Digits, Unique, Denote;
    if s != [] && t != [] {
      NoneMeansSame(path + [SLASH] + Digits(index), s[0], t[0]);
      DeepestItemIsLeast(s[1..], DeepestItem(s));
      NoItemsMeanSame(path, s[1..], t[1..], index + 1);
      assert forall i | 1 <= i < |s| :: s[i] == s[1..][i-1] && t[i] == t[1..][i-1];
    }
  }

  lemma {:induction false} NoMembersMeanSame(path: Text, whole: Json, x: seq<Member>, y: seq<Member>)
    requires forall m | m in x :: m.value < whole && Depth(m.value) < Depth(whole)
    requires ListOk(x) && ListOk(y) && MemberEdits(whole, path, x, y, true) == []
    ensures ToMap(x) == ToMap(y)
    decreases Depth(whole), 0, |x| + |y|
  {
    if x != [] || y != [] {
      hide CreateEdits, MemberEdits, CompareStrings, ToMap, Denote, Unique, Sorted;
      MemberEditsUnfold(whole, path, x, y, true);
      var diff := Turn(x, y, true);
      assert HeadEdits(whole, path, x, y, diff, true) == [];
      assert diff == 0;
      TurnKey(x, y);
      ListTail(x);
      ListTail(y);
      HeadParts(x, y);
      NoneMeansSame(path + [SLASH] + Encode(x[0].key), x[0].value, y[0].value);
      NoMembersMeanSame(path, whole, x[1..], y[1..]);
    }
  }

  // ----- as many patches without regard to case as with regard to it on the folded trees

  lemma {:induction false} CountFolds(p: Text, q: Text, from: Json, to: Json)
    ensures |CreateEdits(p, from, to, false)| == |CreateEdits(q, FoldNames(from), FoldNames(to), true)|
    decreases Depth(from), 1, 0
  {
    hide MergeSort, ItemEdits, MemberEdits;
    match (from, to)
    case (Array(s), Array(t)) => CountItems(p, q, s, t, 0);
    case (Object(s, _), Object(t, _)) =>
      SortMembers(s);
      SortMembers(t);
      SortedInside(from);
      SortedInside(FoldNames(from));
      CountMembers(p, q, from, FoldNames(from), MergeSort(s, false), MergeSort(t, false));
    case _ =>
  }

  lemma {:induction false} CountItems(p: Text, q: Text, s: seq<Json>, t: seq<Json>, index: nat)
    ensures |ItemEdits(p, s, t, index, false)| == |ItemEdits(q, FoldItems(s), FoldItems(t), index, true)|
    decreases 1 + DeepestItem(s), 0, |s| + |t|
  {
    hide CreateEdits, Digits, Encode;
    if s != [] {
      FoldItemsTail(s);
      DeepestItemIsLeast(s[1..], DeepestItem(s));
    }
    if t != [] {
      FoldItemsTail(t);
    }
    if s != [] && t != [] {
      CountFolds(p + [SLASH] + Digits(index), q + [SLASH] + Digits(index), s[0], t[0]);
      CountItems(p, q, s[1..], t[1..], index + 1);
    } else if s != [] {
      CountItems(p, q, s[1..], [], index);
      assert FoldItems([]) == [];
    } else if t != [] {
      CountItems(p, q, [], t[1..], index + 1);
      assert FoldItems([]) == [];
    }
  }

  lemma {:induction false} CountMembers(p: Text, q: Text, whole: Json, folded: Json, x: seq<Member>, y: seq<Member>)
    requires forall m | m in x :: m.value < whole && Depth(m.value) < Depth(whole)
    requires forall m | m in FoldMembers(x) :: m.value < folded
    ensures |MemberEdits(whole, p, x, y, false)| == |MemberEdits(folded, q, FoldMembers(x), FoldMembers(y), true)|
    decreases Depth(whole), 0, |x| + |y|
  {
    hide CreateEdits, Encode, MemberEdits, Fold, Strcmp;
    MemberEditsUnfold(whole, p, x, y, false);
    MemberEditsUnfold(folded, q, FoldMembers(x), FoldMembers(y), true);
    if x != [] || y != [] {
      if x != [] {
        FoldTails(x);
      }
      if y != [] {
        FoldTails(y);
      }
      if x != [] && y != [] {
        SameTurn(x[0].key, y[0].key);
        CountFolds(p + [SLASH] + Encode(x[0].key), q + [SLASH] + Encode(Fold(x[0].key)), x[0].value, y[0].value);
      }
      var diff := Turn(x, y, false);
      CountMembers(p, q, whole, folded, if diff <= 0 then x[1..] else x, if diff >= 0 then y[1..] else y);
    }
  }

  /** `cJSONUtils_GeneratePatches` gives no patch exactly if the data are equal, where the mode minds no case with all
   names folded. */
  lemma NothingToPatch(from: Json, to: Json, caseSensitive: bool)
    requires UniqueIn(from, caseSensitive) && UniqueIn(to, caseSensitive)
    ensures GeneratePatches(from, to, caseSensitive) == Array([]) <==>
      SeenAs(Denote(from), caseSensitive) == SeenAs(Denote(to), caseSensitive)
  {
    hide CreateEdits, Unique, UniqueIn, Denote, FoldNames, SeenAs;
    SeenMeans(from, caseSensitive);
    SeenMeans(to, caseSensitive);
    var f, t := Seen(from, caseSensitive), Seen(to, caseSensitive);
    CountFolds([], [], from, to);
    if Denote(f) == Denote(t) {
      NoPatches([], f, t);
    } else if CreateEdits([], f, t, true) == [] {
      NoneMeansSame([], f, t);
    }
    assert |ComposeAll(CreateEdits([], from, to, caseSensitive))| == |CreateEdits([], f, t, true)|;
  }
}
