/**
 How one generated patch acts: on a member or element of the tree it is applied to,
 or, when its path goes deeper, on the child it enters and on nothing else.
 */
module PatchFrames {
  import opened Basics
  import opened Strings
  import opened Sorting
  import opened Json
  import opened CompareProofs
  import opened Pointer
  import opened PointerProofs
  import opened PointerDecoding
  import opened Patch

  ghost predicate Generated(e: Edit) {
    e.op in {ADD, REMOVE, REPLACE} && (e.op != REMOVE ==> e.value.Some?)
  }

  ghost predicate AllGenerated(edits: seq<Edit>) {
    forall i | 0 <= i < |edits| :: Generated(edits[i])
  }

  /** What `apply_patch` does with a patch that `compose_patch` wrote. */
  ghost function ApplyEdit(root: Json, e: Edit, caseSensitive: bool := true): Applied
    requires Generated(e)
  {
    if e.path == [] then Applied(0, if e.op == REMOVE then Invalid else Fresh(e.value.value))
    else if e.op == ADD then AddAt(root, e.path, Fresh(e.value.value), caseSensitive)
    else
      match DetachPath(root, e.path, caseSensitive)
      case NotFound => Applied(13, root)
      case Detached(_, rest) => if e.op == REMOVE then Applied(0, rest)
        else AddAt(rest, e.path, Fresh(e.value.value), caseSensitive)
  }

  predicate Succeeds(r: Applied) {
    r.Applied? && r.status == 0
  }

  ghost function ApplyEdits(root: Json, edits: seq<Edit>, caseSensitive: bool := true): Applied
    requires AllGenerated(edits)
    decreases |edits|
  {
    if edits == [] then Applied(0, root)
    else
      var r := ApplyEdit(root, edits[0], caseSensitive);
      if Succeeds(r) then ApplyEdits(r.root, edits[1..], caseSensitive) else r
  }

  lemma ComposedItems(e: Edit, caseSensitive: bool := true)
    ensures var p := Compose(e);
      GetItem(p, OP, caseSensitive) == Some(String(e.op)) && GetItem(p, PATH, caseSensitive) == Some(String(e.path)) &&
        GetItem(p, VALUE, caseSensitive) == if e.value.Some? then Some(Fresh(e.value.value)) else None
  {
    hide FindKey, Fresh;
    var ms := Compose(e).members;
    ComposedModes(ms, caseSensitive);
    assert |OP| == 2 && |PATH| == 4 && |VALUE| == 5;
    FirstThree(ms, OP, PATH, VALUE);
  }

  lemma FirstThree(ms: seq<Member>, a: Text, b: Text, c: Text)
    requires 2 <= |ms| <= 3 && ms[0].key == a && ms[1].key == b && (|ms| == 3 ==> ms[2].key == c)
    requires a != b && a != c && b != c
    ensures FindKey(ms, a, true) == 0 && FindKey(ms, b, true) == 1 && FindKey(ms, c, true) == 2
  {
    hide FindKey;
    FindKeyExact(ms, 0);
    FindKeyExact(ms, 1);
    if |ms| == 3 {
      FindKeyExact(ms, 2);
    } else {
      FindKeyAbsent(ms, c);
    }
  }

  /** The names in a composed patch are told apart by their lengths, so the mode does not matter. */
  lemma ComposedModes(ms: seq<Member>, caseSensitive: bool)
    requires forall i | 0 <= i < |ms| :: ms[i].key in {OP, PATH, VALUE}
    ensures forall k | k in {OP, PATH, VALUE} :: FindKey(ms, k, caseSensitive) == FindKey(ms, k, true)
  {
    hide FindKey;
    var names: set<Text> := {OP, PATH, VALUE};
    assert |OP| == 2 && |PATH| == 4 && |VALUE| == 5;
    assert ToldApart(names, caseSensitive) by {
      forall a, b | a in names && b in names && a != b
        ensures Fold(a) != Fold(b)
      {
        assert |Fold(a)| == |a| && |Fold(b)| == |b|;
      }
    }
    forall k | k in names
      ensures FindKey(ms, k, caseSensitive) == FindKey(ms, k, true)
    {
      FindKeyModes(ms, k, names, caseSensitive);
    }
  }

  lemma ComposeApplies(root: Json, e: Edit, caseSensitive: bool := true)
    requires Generated(e)
    ensures ApplyPatch(root, Compose(e), caseSensitive) == ApplyEdit(root, e, caseSensitive)
  {
    hide Compose, DetachPath, AddAt, FindKey;
    ComposedItems(e, caseSensitive);
    if e.value.Some? {
      FreshTwice(e.value.value);
    }
    assert ADD != REMOVE && ADD != REPLACE && REMOVE != REPLACE by {
      assert |ADD| == 3 && |REMOVE| == 6 && |REPLACE| == 7;
    }
  }

  lemma {:induction false} ComposeAllApplies(root: Json, edits: seq<Edit>, caseSensitive: bool := true)
    requires AllGenerated(edits)
    ensures ApplyAll(root, ComposeAll(edits), caseSensitive) == ApplyEdits(root, edits, caseSensitive)
    decreases |edits|
  {
    if edits != [] {
      ComposeApplies(root, edits[0], caseSensitive);
      assert ComposeAll(edits)[1..] == ComposeAll(edits[1..]);
      if Succeeds(ApplyEdit(root, edits[0], caseSensitive)) {
        ComposeAllApplies(ApplyEdit(root, edits[0], caseSensitive).root, edits[1..], caseSensitive);
      }
    }
  }

  lemma {:induction false} ApplyConcat(root: Json, a: seq<Edit>, b: seq<Edit>, caseSensitive: bool := true)
    requires AllGenerated(a)
    requires AllGenerated(b)
    ensures AllGenerated(a + b)
    ensures ApplyEdits(root, a + b, caseSensitive) ==
      var r := ApplyEdits(root, a, caseSensitive); if Succeeds(r) then ApplyEdits(r.root, b, caseSensitive) else r
    decreases |a|
  {
    if a == [] {
      assert a + b == b;
    } else {
      assert (a + b)[1..] == a[1..] + b;
      if Succeeds(ApplyEdit(root, a[0], caseSensitive)) {
        ApplyConcat(ApplyEdit(root, a[0], caseSensitive).root, a[1..], b, caseSensitive);
      }
    }
  }

  // ----- splitting paths

  lemma {:induction false} LastSlashConcat(a: Text, b: Text)
    requires LastSlash(b).Some?
    ensures LastSlash(a + b) == Some(|a| + LastSlash(b).value)
    decreases |b|
  {
    assert (a + b)[|a + b| - 1] == b[|b| - 1];
    if b[|b|-1] != SLASH {
      assert (a + b)[..|a + b| - 1] == a + b[..|b|-1];
      LastSlashConcat(a, b[..|b|-1]);
    }
  }

  lemma {:induction false} LastSlashIs(t: Text)
    requires SLASH !in t
    ensures LastSlash([SLASH] + t) == Some(0)
    decreases |t|
  {
    var p := [SLASH] + t;
    if t != [] {
      assert p[|p|-1] == t[|t|-1];
      assert p[..|p|-1] == [SLASH] + t[..|t|-1];
      LastSlashIs(t[..|t|-1]);
    }
  }

  lemma {:induction false} LastSlashExists(p: Text)
    requires p != [] && p[0] == SLASH
    ensures LastSlash(p).Some?
    decreases |p|
  {
    if |p| > 1 && p[|p|-1] != SLASH {
      LastSlashExists(p[..|p|-1]);
    }
  }

  // ----- edits below a child

  /** The token of child i selects child i. */
  ghost predicate Selects(j: Json, i: nat, caseSensitive: bool := true) {
    && i < Width(j) && Indexable(j)
    && (j.Object? ==> FindKey(j.members, j.members[i].key, caseSensitive) == i)
  }

  ghost predicate Rooted(p: Text) {
    p != [] && p[0] == SLASH
  }

  function Under(j: Json, i: nat, path: Text): Text
    requires i < Width(j)
  {
    [SLASH] + Token(j, i) + path
  }

  function Lift(j: Json, i: nat, r: Applied): Applied
    requires i < Width(j)
  {
    if r.Fault? then Fault else Applied(r.status, SetChild(j, i, r.root))
  }

  lemma SetChildFacts(j: Json, i: nat, c: Json)
    requires i < Width(j)
    ensures Width(SetChild(j, i, c)) == Width(j) && Child(SetChild(j, i, c), i) == c
    ensures Token(SetChild(j, i, c), i) == Token(j, i)
    ensures SetChild(j, i, Child(j, i)) == j
    ensures forall d :: SetChild(SetChild(j, i, c), i, d) == SetChild(j, i, d)
  {}

  lemma {:induction false} SameNames<V>(s: seq<Entry<V>>, t: seq<Entry<V>>, name: Text, caseSensitive: bool)
    requires |s| == |t| && forall i | 0 <= i < |s| :: s[i].key == t[i].key
    ensures FindKey(s, name, caseSensitive) == FindKey(t, name, caseSensitive)
  {
    if s != [] {
      SameNames(s[1..], t[1..], name, caseSensitive);
    }
  }

  lemma SelectsChild(j: Json, i: nat, caseSensitive: bool := true)
    requires Selects(j, i, caseSensitive)
    ensures i < Width(j)
  {}

  lemma SetChildSelects(j: Json, i: nat, c: Json, caseSensitive: bool := true)
    requires Selects(j, i, caseSensitive)
    ensures Selects(SetChild(j, i, c), i, caseSensitive)
  {
    if j.Object? {
      SameNames(j.members, SetChild(j, i, c).members, j.members[i].key, caseSensitive);
    }
  }

  lemma ResolveUnder(j: Json, i: nat, rest: Text, caseSensitive: bool := true)
    requires Selects(j, i, caseSensitive) && AtEnd(rest)
    ensures Resolve(j, Under(j, i, rest), caseSensitive) ==
      var r := Resolve(Child(j, i), rest, caseSensitive); if r.None? then None else Some([i] + r.value)
  {
    ResolveStep(j, i, rest, caseSensitive);
  }

  lemma BelowChild(j: Json, i: nat, pos: Position, c: Json)
    requires i < Width(j) && ValidPosition(Child(j, i), pos)
    ensures ValidPosition(j, [i] + pos) && NodeAt(j, [i] + pos) == NodeAt(Child(j, i), pos)
    ensures ReplaceNode(j, [i] + pos, c) == SetChild(j, i, ReplaceNode(Child(j, i), pos, c))
  {
    assert ([i] + pos)[1..] == pos;
  }

  /** The path under the child splits into parent and last token where the path itself does. */
  lemma SplitUnder(j: Json, i: nat, path: Text) returns (k: nat)
    requires i < Width(j) && Rooted(path)
    ensures LastSlash(path) == Some(k) && AtEnd(path[..k])
    ensures var p := Under(j, i, path);
      var s := 1 + |Token(j, i)| + k;
      LastSlash(p) == Some(s) && p[..s] == Under(j, i, path[..k]) && p[s+1..] == path[k+1..]
  {
    hide Token;
    LastSlashExists(path);
    k := LastSlash(path).value;
    LastSlashConcat([SLASH] + Token(j, i), path);
  }

  lemma DetachFromUnder(j: Json, i: nat, parentPath: Text, name: Text, caseSensitive: bool := true)
    requires Selects(j, i, caseSensitive) && AtEnd(parentPath)
    ensures DetachFrom(j, Under(j, i, parentPath), name, caseSensitive) ==
      match DetachFrom(Child(j, i), parentPath, name, caseSensitive)
      case NotFound => NotFound
      case Detached(item, rest) => Detached(item, SetChild(j, i, rest))
  {
    hide SetChild, Under, Child, Selects, ReplaceNode, RemoveChild, ChildToDetach, DecodeInPlace;
    SelectsChild(j, i, caseSensitive);
    var c := Child(j, i);
    ResolveUnder(j, i, parentPath, caseSensitive);
    var at := Resolve(c, parentPath, caseSensitive);
    if at.Some? {
      var parent := NodeAt(c, at.value);
      BelowChild(j, i, at.value, parent);
      var which := ChildToDetach(parent, DecodeInPlace(name));
      if which.Some? {
        BelowChild(j, i, at.value, RemoveChild(parent, which.value));
      }
    }
  }

  lemma DetachUnder(j: Json, i: nat, path: Text, caseSensitive: bool := true)
    requires Selects(j, i, caseSensitive) && Rooted(path)
    ensures DetachPath(j, Under(j, i, path), caseSensitive) ==
      match DetachPath(Child(j, i), path, caseSensitive)
      case NotFound => NotFound
      case Detached(item, rest) => Detached(item, SetChild(j, i, rest))
  {
    hide DetachFrom, Under, Token, Encode, Digits;
    var k := SplitUnder(j, i, path);
    DetachFromUnder(j, i, path[..k], path[k+1..], caseSensitive);
  }

  lemma AddFromUnder(j: Json, i: nat, parentPath: Text, name: Text, value: Json, caseSensitive: bool := true)
    requires Selects(j, i, caseSensitive) && AtEnd(parentPath)
    ensures AddFrom(j, Under(j, i, parentPath), name, value, caseSensitive) ==
      Lift(j, i, AddFrom(Child(j, i), parentPath, name, value, caseSensitive))
  {
    hide AddBelow, Resolve, NodeAt, ReplaceNode, SetChild, Under, DecodeInPlace, ValidPosition, Child, Selects;
    SelectsChild(j, i, caseSensitive);
    var c := Child(j, i);
    SetChildFacts(j, i, c);
    ResolveUnder(j, i, parentPath, caseSensitive);
    var at := Resolve(c, parentPath, caseSensitive);
    if at.Some? {
      var r := AddBelow(NodeAt(c, at.value), DecodeInPlace(name), value, caseSensitive);
      BelowChild(j, i, at.value, if r.Applied? then r.root else c);
    }
  }

  lemma AddUnder(j: Json, i: nat, path: Text, value: Json, caseSensitive: bool := true)
    requires Selects(j, i, caseSensitive) && Rooted(path)
    ensures AddAt(j, Under(j, i, path), value, caseSensitive) ==
      Lift(j, i, AddAt(Child(j, i), path, value, caseSensitive))
  {
    hide AddFrom, Under, Token, Encode, Digits;
    var k := SplitUnder(j, i, path);
    AddFromUnder(j, i, path[..k], path[k+1..], value, caseSensitive);
  }

  /** A patch whose path enters child i changes that child as it would change it alone, and nothing else. */
  lemma EditUnder(j: Json, i: nat, e: Edit, caseSensitive: bool := true)
    requires Selects(j, i, caseSensitive) && Generated(e) && Rooted(e.path)
    ensures ApplyEdit(j, e.(path := [SLASH] + Token(j, i) + e.path), caseSensitive) ==
      Lift(j, i, ApplyEdit(Child(j, i), e, caseSensitive))
  {
    hide DetachPath, AddAt, SetChild, Child, Selects, Token, Under;
    SelectsChild(j, i, caseSensitive);
    UnderRooted(j, i, e.path);
    var c := Child(j, i);
    SetChildFacts(j, i, c);
    if e.op == ADD {
      AddUnder(j, i, e.path, Fresh(e.value.value), caseSensitive);
    } else {
      DetachUnder(j, i, e.path, caseSensitive);
      var d := DetachPath(c, e.path, caseSensitive);
      if d.Detached? {
        var j' := SetChild(j, i, d.root);
        SetChildFacts(j, i, d.root);
        SetChildSelects(j, i, d.root, caseSensitive);
        SameUnder(j, j', i, e.path);
        if e.op != REMOVE {
          AddUnder(j', i, e.path, Fresh(e.value.value), caseSensitive);
        }
      }
    }
  }

  lemma UnderRooted(j: Json, i: nat, path: Text)
    requires i < Width(j)
    ensures Under(j, i, path) == [SLASH] + Token(j, i) + path != []
  {}

  lemma SameUnder(j: Json, j': Json, i: nat, path: Text)
    requires i < Width(j) && i < Width(j') && Token(j, i) == Token(j', i)
    ensures Under(j, i, path) == Under(j', i, path)
  {}

  ghost predicate AllRooted(edits: seq<Edit>) {
    forall i | 0 <= i < |edits| :: Rooted(edits[i].path)
  }

  /** Edits with a path put in front of each of theirs. */
  function Prefixed(p: Text, edits: seq<Edit>): (r: seq<Edit>)
    ensures |r| == |edits| && forall i | 0 <= i < |edits| :: r[i] == edits[i].(path := p + edits[i].path)
    ensures AllGenerated(edits) ==> AllGenerated(r)
  {
    seq(|edits|, i requires 0 <= i < |edits| => edits[i].(path := p + edits[i].path))
  }

  lemma {:induction false} EditsUnder(j: Json, i: nat, edits: seq<Edit>, caseSensitive: bool := true)
    requires Selects(j, i, caseSensitive)
    requires AllGenerated(edits) && AllRooted(edits)
    ensures ApplyEdits(j, Prefixed([SLASH] + Token(j, i), edits), caseSensitive) ==
      Lift(j, i, ApplyEdits(Child(j, i), edits, caseSensitive))
    decreases |edits|
  {
    hide ApplyEdit, SetChild, Child, Selects, Token;
    SelectsChild(j, i, caseSensitive);
    var ps := Prefixed([SLASH] + Token(j, i), edits);
    SetChildFacts(j, i, Child(j, i));
    if edits != [] {
      EditUnder(j, i, edits[0], caseSensitive);
      var r := ApplyEdit(Child(j, i), edits[0], caseSensitive);
      if Succeeds(r) {
        SetChildFacts(j, i, r.root);
        SetChildSelects(j, i, r.root, caseSensitive);
        assert ps[1..] == Prefixed([SLASH] + Token(j, i), edits[1..]);
        EditsUnder(SetChild(j, i, r.root), i, edits[1..], caseSensitive);
      }
    }
  }

  // ----- edits of a child itself

  lemma SplitHere(name: Text)
    requires SLASH !in name
    ensures var p := [SLASH] + name; LastSlash(p) == Some(0) && p[..0] == [] && p[1..] == name
  {
    LastSlashIs(name);
  }

  lemma DigitsSurvive(n: nat)
    ensures SLASH !in Digits(n) && Encode(Digits(n)) == Digits(n) && DecodeInPlace(Digits(n)) == Digits(n)
    ensures DecodeIndex(Digits(n)) == Some(n % SIZE_RANGE)
    ensures Digits(n) != DASH
  {
    var ds := Digits(n);
    assert TILDE !in ds && SLASH !in ds;
    EncodePlain(ds);
    PlainSurvives(ds);
    DecodeUndoesEncode(ds);
    DecodeDigits(n, []);
    assert ds + [] == ds;
    assert ds[0] != DASH[0];
  }

  lemma DetachHere(root: Json, name: Text, caseSensitive: bool := true)
    requires SLASH !in name
    ensures DetachPath(root, [SLASH] + name, caseSensitive) ==
      var i := ChildToDetach(root, DecodeInPlace(name));
      if i.None? then NotFound else Detached(Child(root, i.value), RemoveChild(root, i.value))
  {
    SplitHere(name);
  }

  lemma AddHere(root: Json, name: Text, value: Json, caseSensitive: bool := true)
    requires SLASH !in name
    ensures AddAt(root, [SLASH] + name, value, caseSensitive) ==
      var r := AddBelow(root, DecodeInPlace(name), value, caseSensitive);
      if r.Fault? then Fault else Applied(r.status, if r.status == 0 then r.root else root)
  {
    SplitHere(name);
  }

  lemma RemoveItem(items: seq<Json>, i: nat, caseSensitive: bool := true)
    requires i < |items| <= SIZE_RANGE
    ensures ApplyEdit(Array(items), Edit(REMOVE, [SLASH] + Encode(Digits(i)), None), caseSensitive) ==
      Applied(0, Array(RemoveAt(items, i)))
  {
    hide DetachPath, Encode, Digits, DecodeIndex, DecodeInPlace;
    DigitsSurvive(i);
    DetachHere(Array(items), Digits(i), caseSensitive);
  }

  lemma AppendItem(items: seq<Json>, v: Json, caseSensitive: bool := true)
    ensures ApplyEdit(Array(items), Edit(ADD, [SLASH] + Encode(DASH), Some(v)), caseSensitive) ==
      Applied(0, Array(items + [Fresh(v)]))
  {
    EncodePlain(DASH);
    PlainSurvives(DASH);
    DecodeUndoesEncode(DASH);
    AddHere(Array(items), DASH, Fresh(v), caseSensitive);
  }

  lemma ReplaceItem(items: seq<Json>, i: nat, v: Json, caseSensitive: bool := true)
    requires i < |items| <= SIZE_RANGE
    ensures ApplyEdit(Array(items), Edit(REPLACE, [SLASH] + Digits(i), Some(v)), caseSensitive) ==
      Applied(0, Array(items[i := Fresh(v)]))
  {
    hide DetachPath, AddAt, Encode, Digits, DecodeIndex, DecodeInPlace;
    DigitsSurvive(i);
    var r := RemoveAt(items, i);
    DetachHere(Array(items), Digits(i), caseSensitive);
    AddHere(Array(r), Digits(i), Fresh(v), caseSensitive);
    assert r[..i] + [Fresh(v)] + r[i..] == items[i := Fresh(v)];
  }
}
