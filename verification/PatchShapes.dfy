/** The list of generated patches: well-formed operations, on paths that extend the path they were generated for. */
module PatchShapes {
  import opened Basics
  import opened Strings
  import opened Sorting
  import opened Json
  import opened Pointer
  import opened Patch
  import opened PatchFrames

  /** Patches for children of one node never share its path. */
  lemma ExtendsStarts(es: seq<Edit>, path: Text)
    requires Extends(es, path)
    ensures forall i | 0 <= i < |es| :: path <= es[i].path
  {
    forall i | 0 <= i < |es|
      ensures path <= es[i].path
    {
      assert path <= path + [SLASH] <= es[i].path;
    }
  }

  lemma {:induction false} CreateShape(path: Text, from: Json, to: Json, caseSensitive: bool := true)
    ensures var es := CreateEdits(path, from, to, caseSensitive);
      AllGenerated(es) && forall i | 0 <= i < |es| :: path <= es[i].path
    ensures var es := CreateEdits([], from, to, caseSensitive);
      es == [Edit(REPLACE, [], Some(to))] || AllRooted(es)
    decreases Depth(from), 1, 0
  {
    if SameType(from, to) {
      match from
      case Array(s) =>
        ItemShape(path, s, to.items, 0, caseSensitive);
        ItemShape([], s, to.items, 0, caseSensitive);
        ExtendsStarts(ItemEdits(path, s, to.items, 0, caseSensitive), path);
      case Object(s, _) =>
        SortPermutes(s, caseSensitive);
        var x, y := MergeSort(s, caseSensitive), MergeSort(to.members, caseSensitive);
        forall m | m in x
          ensures m.value < from && Depth(m.value) < Depth(from)
        {
          SameElements(s, x, m);
        }
        MemberShape(from, path, x, y, caseSensitive);
        MemberShape(from, [], x, y, caseSensitive);
        ExtendsStarts(MemberEdits(from, path, x, y, caseSensitive), path);
      case _ =>
    }
  }

  ghost predicate Extends(es: seq<Edit>, path: Text) {
    forall i | 0 <= i < |es| :: path + [SLASH] <= es[i].path
  }

  lemma ExtendsRooted(es: seq<Edit>)
    requires Extends(es, [])
    ensures AllRooted(es)
  {
    forall i | 0 <= i < |es|
      ensures Rooted(es[i].path)
    {
      assert [] + [SLASH] <= es[i].path;
      assert es[i].path[0] == ([] + [SLASH])[0];
    }
  }

  lemma {:induction false} ItemShape(path: Text, s: seq<Json>, t: seq<Json>, index: nat, caseSensitive: bool := true)
    ensures var es := ItemEdits(path, s, t, index, caseSensitive); AllGenerated(es) && Extends(es, path)
    ensures path == [] ==> AllRooted(ItemEdits(path, s, t, index, caseSensitive))
    decreases 1 + DeepestItem(s), 0, |s| + |t|
  {
    hide Digits, Encode, CreateEdits;
    var es := ItemEdits(path, s, t, index, caseSensitive);
    if s != [] && t != [] {
      var p := path + [SLASH] + Digits(index);
      CreateShape(p, s[0], t[0], caseSensitive);
      DeepestItemIsLeast(s[1..], DeepestItem(s));
      ItemShape(path, s[1..], t[1..], index + 1, caseSensitive);
      LongerPaths(CreateEdits(p, s[0], t[0], caseSensitive), path, Digits(index));
    } else if s != [] {
      DeepestItemIsLeast(s[1..], DeepestItem(s));
      ItemShape(path, s[1..], [], index, caseSensitive);
    } else if t != [] {
      ItemShape(path, [], t[1..], index + 1, caseSensitive);
    }
    if path == [] {
      ExtendsRooted(es);
    }
  }

  lemma LongerPaths(es: seq<Edit>, path: Text, token: Text)
    requires forall i | 0 <= i < |es| :: path + [SLASH] + token <= es[i].path
    ensures Extends(es, path)
  {
    forall i | 0 <= i < |es|
      ensures path + [SLASH] <= es[i].path
    {
      assert path + [SLASH] <= path + [SLASH] + token;
    }
  }

  lemma MemberEditsUnfold(whole: Json, path: Text, x: seq<Member>, y: seq<Member>, caseSensitive: bool)
    requires forall m | m in x :: m.value < whole
    ensures x == [] && y == [] ==> MemberEdits(whole, path, x, y, caseSensitive) == []
    ensures x != [] || y != [] ==>
      var diff := Turn(x, y, caseSensitive);
      MemberEdits(whole, path, x, y, caseSensitive) == HeadEdits(whole, path, x, y, diff, caseSensitive)
        + MemberEdits(whole, path, if diff <= 0 then x[1..] else x, if diff >= 0 then y[1..] else y, caseSensitive)
  {
    hide HeadEdits, CompareStrings;
  }

  lemma PrefixedConcat(p: Text, a: seq<Edit>, b: seq<Edit>)
    ensures Prefixed(p, a + b) == Prefixed(p, a) + Prefixed(p, b)
  {}

  lemma {:induction false} MemberShape(whole: Json, path: Text, x: seq<Member>, y: seq<Member>,
      caseSensitive: bool := true)
    requires forall m | m in x :: m.value < whole && Depth(m.value) < Depth(whole)
    ensures var es := MemberEdits(whole, path, x, y, caseSensitive); AllGenerated(es) && Extends(es, path)
    ensures path == [] ==> AllRooted(MemberEdits(whole, path, x, y, caseSensitive))
    decreases Depth(whole), 0, |x| + |y|
  {
    hide CompareStrings, HeadEdits;
    if x != [] || y != [] {
      var diff := Turn(x, y, caseSensitive);
      HeadShape(whole, path, x, y, diff, caseSensitive);
      MemberShape(whole, path, if diff <= 0 then x[1..] else x, if diff >= 0 then y[1..] else y, caseSensitive);
    }
    if path == [] {
      ExtendsRooted(MemberEdits(whole, path, x, y, caseSensitive));
    }
  }

  lemma {:induction false} HeadShape(whole: Json, path: Text, x: seq<Member>, y: seq<Member>, diff: int,
      caseSensitive: bool := true)
    requires forall m | m in x :: m.value < whole && Depth(m.value) < Depth(whole)
    requires (diff <= 0 ==> x != []) && (diff >= 0 ==> y != [])
    ensures var es := HeadEdits(whole, path, x, y, diff, caseSensitive); AllGenerated(es) && Extends(es, path)
    decreases Depth(whole), 0, 0
  {
    hide Encode, CreateEdits;
    if diff == 0 {
      var token := Encode(x[0].key);
      CreateShape(path + [SLASH] + token, x[0].value, y[0].value, caseSensitive);
      LongerPaths(CreateEdits(path + [SLASH] + token, x[0].value, y[0].value, caseSensitive), path, token);
    }
  }

  // ----- patches for a subtree are the subtree's patches with its path in front

  lemma Associate(p: Text, q: Text, t: Text)
    ensures (p + q) + [SLASH] + t == p + (q + [SLASH] + t)
  {}

  lemma {:induction false} CreatePrefixed(p: Text, q: Text, from: Json, to: Json, caseSensitive: bool := true)
    ensures CreateEdits(p + q, from, to, caseSensitive) == Prefixed(p, CreateEdits(q, from, to, caseSensitive))
    decreases Depth(from), 1, 0
  {
    if SameType(from, to) {
      match from
      case Array(s) => ItemsPrefixed(p, q, s, to.items, 0, caseSensitive);
      case Object(s, _) =>
        SortPermutes(s, caseSensitive);
        var x, y := MergeSort(s, caseSensitive), MergeSort(to.members, caseSensitive);
        forall m | m in x
          ensures m.value < from && Depth(m.value) < Depth(from)
        {
          SameElements(s, x, m);
        }
        MembersPrefixed(from, p, q, x, y, caseSensitive);
      case _ =>
    }
  }

  lemma {:induction false} ItemsPrefixed(p: Text, q: Text, s: seq<Json>, t: seq<Json>, index: nat,
      caseSensitive: bool := true)
    ensures ItemEdits(p + q, s, t, index, caseSensitive) == Prefixed(p, ItemEdits(q, s, t, index, caseSensitive))
    decreases 1 + DeepestItem(s), 0, |s| + |t|
  {
    hide Digits, Encode, CreateEdits;
    if s != [] && t != [] {
      Associate(p, q, Digits(index));
      CreatePrefixed(p, q + [SLASH] + Digits(index), s[0], t[0], caseSensitive);
      DeepestItemIsLeast(s[1..], DeepestItem(s));
      ItemsPrefixed(p, q, s[1..], t[1..], index + 1, caseSensitive);
    } else if s != [] {
      Associate(p, q, Encode(Digits(index)));
      DeepestItemIsLeast(s[1..], DeepestItem(s));
      ItemsPrefixed(p, q, s[1..], [], index, caseSensitive);
    } else if t != [] {
      Associate(p, q, Encode(DASH));
      ItemsPrefixed(p, q, [], t[1..], index + 1, caseSensitive);
    }
  }

  lemma {:induction false} MembersPrefixed(whole: Json, p: Text, q: Text, x: seq<Member>, y: seq<Member>,
      caseSensitive: bool := true)
    requires forall m | m in x :: m.value < whole && Depth(m.value) < Depth(whole)
    ensures MemberEdits(whole, p + q, x, y, caseSensitive) == Prefixed(p, MemberEdits(whole, q, x, y, caseSensitive))
    decreases Depth(whole), 0, |x| + |y|
  {
    hide CompareStrings, HeadEdits, MemberEdits, Prefixed;
    MemberEditsUnfold(whole, p + q, x, y, caseSensitive);
    MemberEditsUnfold(whole, q, x, y, caseSensitive);
    if x != [] || y != [] {
      var diff := Turn(x, y, caseSensitive);
      var x', y' := if diff <= 0 then x[1..] else x, if diff >= 0 then y[1..] else y;
      HeadPrefixed(whole, p, q, x, y, diff, caseSensitive);
      MembersPrefixed(whole, p, q, x', y', caseSensitive);
      PrefixedConcat(p, HeadEdits(whole, q, x, y, diff, caseSensitive), MemberEdits(whole, q, x', y', caseSensitive));
    }
  }

  lemma {:induction false} HeadPrefixed(whole: Json, p: Text, q: Text, x: seq<Member>, y: seq<Member>, diff: int,
      caseSensitive: bool := true)
    requires forall m | m in x :: m.value < whole && Depth(m.value) < Depth(whole)
    requires (diff <= 0 ==> x != []) && (diff >= 0 ==> y != [])
    ensures HeadEdits(whole, p + q, x, y, diff, caseSensitive) ==
      Prefixed(p, HeadEdits(whole, q, x, y, diff, caseSensitive))
    decreases Depth(whole), 0, 0
  {
    hide Encode, CreateEdits;
    if diff == 0 {
      var token := Encode(x[0].key);
      Associate(p, q, token);
      CreatePrefixed(p, q + [SLASH] + token, x[0].value, y[0].value, caseSensitive);
    } else if diff < 0 {
      Associate(p, q, Encode(x[0].key));
    } else {
      Associate(p, q, Encode(y[0].key));
    }
  }
}
