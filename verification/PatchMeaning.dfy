/**
 What the operations of RFC 6902 (sections 4.1 to 4.6) mean for data, and that
 `apply_patch` computes just that, for every patch whose path is a JSON Pointer and meets
 what the code asks of names, indices and lists. Without regard to case, a name stands for
 the one member that is called so up to case; cs is whether the mode minds case.
 */
module PatchMeaning {
  import opened Basics
  import opened Strings
  import opened Sorting
  import opened Tails
  import opened Json
  import opened Compare
  import opened CompareProofs
  import opened Folding
  import opened Pointer
  import opened PointerProofs
  import opened PointerDecoding
  import opened Readback
  import opened Patch
  import opened PatchFrames
  import opened PatchMembers

  // ----- the RFC's operations on data

  /** The reference tokens of a JSON Pointer, unescaped. */
  type Tokens = seq<Text>

  /** RFC 6901, section 4: an array index is a decimal without leading zeros. */
  ghost function IndexOf(t: Text): (r: Option<nat>)
    ensures r.Some? ==> Digits(r.value) == t
    ensures r.None? ==> forall n :: Digits(n) != t
  {
    if n: nat :| Digits(n) == t then Some(n) else None
  }

  /** The name among these that a token stands for. */
  ghost function Called(names: set<Text>, t: Text, cs: bool): (r: Option<Text>)
    ensures r.Some? ==> r.value in names && SameName(t, r.value, cs)
    ensures r.None? ==> forall k | k in names :: !SameName(t, k, cs)
  {
    if k :| k in names && SameName(t, k, cs) then Some(k) else None
  }

  /** The value that one token selects. */
  ghost function Step(v: Value, t: Text, cs: bool): Option<Value> {
    match v
    case VObject(m) =>
      var k := Called(m.Keys, t, cs);
      if k.Some? then Some(m[k.value]) else None
    case VArray(s) =>
      var n := IndexOf(t);
      if n.Some? && n.value < |s| then Some(s[n.value]) else None
    case _ => None
  }

  ghost function Lookup(v: Value, ts: Tokens, cs: bool): Option<Value>
    decreases |ts|
  {
    if ts == [] then Some(v)
    else
      var c := Step(v, ts[0], cs);
      if c.None? then None else Lookup(c.value, ts[1..], cs)
  }

  /** The value with w in the place of what the tokens lead to. */
  ghost function Update(v: Value, ts: Tokens, w: Value, cs: bool): Value
    requires Lookup(v, ts, cs).Some?
    decreases |ts|
  {
    if ts == [] then w
    else
      var c := Update(Step(v, ts[0], cs).value, ts[1..], w, cs);
      match v
      case VObject(m) => VObject(m[Called(m.Keys, ts[0], cs).value := c])
      case VArray(s) => VArray(s[IndexOf(ts[0]).value := c])
  }

  /** An object without the member that is called so, if there is one. */
  ghost function Without(m: map<Text, Value>, t: Text, cs: bool): map<Text, Value> {
    var k := Called(m.Keys, t, cs);
    if k.Some? then m - {k.value} else m
  }

  /** Section 4.1, at the parent: a member is set, an element is inserted. */
  ghost function AddChild(p: Value, t: Text, w: Value, cs: bool): Option<Value> {
    match p
    case VObject(m) => Some(VObject(Without(m, t, cs)[t := w]))
    case VArray(s) =>
      var n := IndexOf(t);
      if t == DASH then Some(VArray(s + [w]))
      else if n.Some? && n.value <= |s| then Some(VArray(s[..n.value] + [w] + s[n.value..]))
      else None
    case _ => None
  }

  /** Section 4.2, at the parent. */
  ghost function RemoveChildOf(p: Value, t: Text, cs: bool): Option<Value> {
    match p
    case VObject(m) => if Called(m.Keys, t, cs).Some? then Some(VObject(Without(m, t, cs))) else None
    case VArray(s) =>
      var n := IndexOf(t);
      if n.Some? && n.value < |s| then Some(VArray(RemoveAt(s, n.value))) else None
    case _ => None
  }

  datatype RfcOp =
    | Add(path: Tokens, value: Value)
    | Remove(path: Tokens)
    | Replace(path: Tokens, value: Value)
    | Move(from: Tokens, path: Tokens)
    | Copy(from: Tokens, path: Tokens)
    | Test(path: Tokens, value: Value)

  function Front(ts: Tokens): Tokens
    requires ts != []
  {
    ts[..|ts|-1]
  }

  function Final(ts: Tokens): Text
    requires ts != []
  {
    ts[|ts|-1]
  }

  ghost function RfcAdd(v: Value, ts: Tokens, w: Value, cs: bool): Option<Value> {
    if ts == [] then Some(w)
    else
      var p := Lookup(v, Front(ts), cs);
      if p.None? then None
      else
        var c := AddChild(p.value, Final(ts), w, cs);
        if c.None? then None else Some(Update(v, Front(ts), c.value, cs))
  }

  /** Of a whole document that is removed nothing is left. */
  ghost function RfcRemove(v: Value, ts: Tokens, cs: bool): Option<Value> {
    if ts == [] then Some(VInvalid)
    else
      var p := Lookup(v, Front(ts), cs);
      if p.None? then None
      else
        var c := RemoveChildOf(p.value, Final(ts), cs);
        if c.None? then None else Some(Update(v, Front(ts), c.value, cs))
  }

  /** Each operation as the RFC says it: replacing and moving are a removal and an addition, copying is an addition. */
  ghost function RfcApply(v: Value, op: RfcOp, cs: bool): Option<Value> {
    match op
    case Add(path, w) => RfcAdd(v, path, w, cs)
    case Remove(path) => RfcRemove(v, path, cs)
    case Replace(path, w) =>
      var rest := RfcRemove(v, path, cs);
      if rest.None? then None else RfcAdd(rest.value, path, w, cs)
    case Move(from, path) =>
      var x, rest := Lookup(v, from, cs), RfcRemove(v, from, cs);
      if x.None? || rest.None? then None else RfcAdd(rest.value, path, x.value, cs)
    case Copy(from, path) =>
      var x := Lookup(v, from, cs);
      if x.None? then None else RfcAdd(v, path, x.value, cs)
    case Test(path, w) =>
      var x := Lookup(v, path, cs);
      if x.Some? && SeenAs(x.value, cs) == SeenAs(w, cs) then Some(v) else None
  }

  /** Section 5: one operation after the other, up to the first that fails. */
  ghost function RfcApplyAll(v: Value, ops: seq<RfcOp>, cs: bool): Option<Value>
    decreases |ops|
  {
    if ops == [] then Some(v)
    else
      var r := RfcApply(v, ops[0], cs);
      if r.None? then None else RfcApplyAll(r.value, ops[1..], cs)
  }

  lemma {:induction false} LookupConcat(v: Value, p: Tokens, q: Tokens, cs: bool)
    ensures Lookup(v, p + q, cs) == var r := Lookup(v, p, cs); if r.None? then None else Lookup(r.value, q, cs)
    decreases |p|
  {
    if p == [] {
      assert p + q == q;
    } else {
      assert (p + q)[1..] == p[1..] + q;
      var c := Step(v, p[0], cs);
      if c.Some? {
        LookupConcat(c.value, p[1..], q, cs);
      }
    }
  }

  lemma LookupLast(v: Value, ts: Tokens, cs: bool)
    requires ts != []
    ensures Lookup(v, ts, cs) ==
      var p := Lookup(v, Front(ts), cs); if p.None? then None else Step(p.value, Final(ts), cs)
  {
    hide Step;
    assert ts == Front(ts) + [Final(ts)];
    LookupConcat(v, Front(ts), [Final(ts)], cs);
  }

  lemma {:induction false} UpdateTwice(v: Value, ts: Tokens, x: Value, y: Value, cs: bool)
    requires Lookup(v, ts, cs).Some?
    ensures Lookup(Update(v, ts, x, cs), ts, cs) == Some(x) &&
      Update(Update(v, ts, x, cs), ts, y, cs) == Update(v, ts, y, cs)
    decreases |ts|
  {
    if ts != [] {
      var c := Step(v, ts[0], cs).value;
      UpdateTwice(c, ts[1..], x, y, cs);
      StepUpdated(v, ts[0], Update(c, ts[1..], x, cs), cs);
      UpdateAgain(v, ts[0], Update(c, ts[1..], x, cs), Update(c, ts[1..], y, cs), cs);
    }
  }

  lemma StepUpdated(v: Value, t: Text, w: Value, cs: bool)
    requires Step(v, t, cs).Some?
    ensures Lookup(v, [t], cs).Some? && Step(Update(v, [t], w, cs), t, cs) == Some(w)
    ensures v.VObject? ==>
      && Called(v.members.Keys, t, cs).Some?
      && Update(v, [t], w, cs) == VObject(v.members[Called(v.members.Keys, t, cs).value := w])
    ensures v.VArray? ==> Update(v, [t], w, cs) == VArray(v.items[IndexOf(t).value := w])
  {
    var one: Tokens := [t];
    assert one[1..] == [];
    if v.VObject? {
      var k := Called(v.members.Keys, t, cs).value;
      assert v.members[k := w].Keys == v.members.Keys;
    }
  }

  lemma UpdateAgain(v: Value, t: Text, x: Value, y: Value, cs: bool)
    requires Step(v, t, cs).Some?
    ensures Step(Update(v, [t], x, cs), t, cs).Some?
    ensures Lookup(v, [t], cs).Some? && Lookup(Update(v, [t], x, cs), [t], cs).Some?
    ensures Update(Update(v, [t], x, cs), [t], y, cs) == Update(v, [t], y, cs)
  {
    StepUpdated(v, t, x, cs);
    StepUpdated(v, t, y, cs);
    StepUpdated(Update(v, [t], x, cs), t, y, cs);
    if v.VObject? {
      var k := Called(v.members.Keys, t, cs).value;
      assert v.members[k := x].Keys == v.members.Keys;
      assert v.members[k := x][k := y] == v.members[k := y];
    } else {
      var n := IndexOf(t).value;
      assert v.items[n := x][n := y] == v.items[n := y];
    }
  }

  lemma {:induction false} UpdateConcat(v: Value, p: Tokens, q: Tokens, w: Value, cs: bool)
    requires Lookup(v, p + q, cs).Some?
    ensures Lookup(v, p, cs).Some? && Lookup(Lookup(v, p, cs).value, q, cs).Some?
    ensures Update(v, p + q, w, cs) == Update(v, p, Update(Lookup(v, p, cs).value, q, w, cs), cs)
    decreases |p|
  {
    LookupConcat(v, p, q, cs);
    if p == [] {
      assert p + q == q;
    } else {
      assert (p + q)[1..] == p[1..] + q;
      UpdateConcat(Step(v, p[0], cs).value, p[1..], q, w, cs);
    }
  }

  /** Section 4.3, said otherwise: what is at the target has to be there, and the new value is there instead, in an
   array at the same index. (Without regard to case the member takes the name of the path's last token.) */
  lemma ReplaceIsUpdate(v: Value, ts: Tokens, w: Value)
    ensures RfcApply(v, Replace(ts, w), true) ==
      if Lookup(v, ts, true).Some? then Some(Update(v, ts, w, true)) else None
  {
    if ts != [] {
      hide Update, Lookup, Step, RemoveChildOf, AddChild;
      LookupLast(v, ts, true);
      var p := Lookup(v, Front(ts), true);
      if p.Some? {
        ReplacedChild(p.value, Final(ts), w);
        var c := RemoveChildOf(p.value, Final(ts), true);
        if c.Some? {
          UpdateTwice(v, Front(ts), c.value, Update(p.value, [Final(ts)], w, true), true);
          assert ts == Front(ts) + [Final(ts)];
          UpdateConcat(v, Front(ts), [Final(ts)], w, true);
        }
      }
    } else {
      assert Lookup(v, ts, true).Some? && Update(v, ts, w, true) == w;
    }
  }

  lemma ReplacedChild(p: Value, t: Text, w: Value)
    ensures Step(p, t, true).Some? <==> RemoveChildOf(p, t, true).Some?
    ensures Step(p, t, true).Some? ==>
      && Lookup(p, [t], true).Some?
      && AddChild(RemoveChildOf(p, t, true).value, t, w, true) == Some(Update(p, [t], w, true))
  {
    if Step(p, t, true).Some? {
      StepUpdated(p, t, w, true);
      match p
      case VObject(m) => assert (m - {t})[t := w] == m[t := w];
      case VArray(s) =>
        var n := IndexOf(t).value;
        var r := RemoveAt(s, n);
        assert t != DASH by { DashIsNoIndex(n); }
        assert r[..n] + [w] + r[n..] == s[n := w];
    }
  }

  lemma DashIsNoIndex(n: nat)
    ensures Digits(n) != DASH
  {
    assert Digits(n)[0] >= 48;
  }

  // ----- reading pointers

  function PathOf(ts: Tokens): (p: Text)
    ensures AtEnd(p)
  {
    if ts == [] then [] else [SLASH] + Encode(ts[0]) + PathOf(ts[1..])
  }

  lemma {:induction false} PathConcat(p: Tokens, q: Tokens)
    ensures PathOf(p + q) == PathOf(p) + PathOf(q)
  {
    if p == [] {
      assert p + q == q;
    } else {
      assert (p + q)[1..] == p[1..] + q;
      PathConcat(p[1..], q);
    }
  }

  /** `apply_patch` splits a pointer in front of its last token. */
  lemma SplitPath(ts: Tokens)
    requires ts != []
    ensures var p, s := PathOf(ts), |PathOf(Front(ts))|;
      LastSlash(p) == Some(s) && p[..s] == PathOf(Front(ts)) && p[s+1..] == Encode(Final(ts))
  {
    var t := Final(ts);
    assert ts == Front(ts) + [t];
    var one: Tokens := [t];
    PathConcat(Front(ts), one);
    assert one[1..] == [];
    assert PathOf([t]) == [SLASH] + Encode(t);
    EncodedAvoidsSlash(t);
    LastSlashIs(Encode(t));
    LastSlashConcat(PathOf(Front(ts)), PathOf([t]));
  }

  /** A token that the code reads as the index it is. */
  ghost predicate Countably(t: Text) {
    IndexOf(t).Some? && IndexOf(t).value < SIZE_RANGE
  }

  /** Wherever the pointer passes an array, its token is an index, and not one that `size_t` is too small for. */
  ghost predicate Indexed(v: Value, ts: Tokens, cs: bool)
    decreases |ts|
  {
    ts != [] ==>
      && (v.VArray? ==> Countably(ts[0]))
      && var c := Step(v, ts[0], cs); c.Some? ==> Indexed(c.value, ts[1..], cs)
  }

  lemma IndexReads(t: Text, rest: Text)
    requires Countably(t) && AtEnd(rest)
    ensures DecodeIndex(Encode(t) + rest) == IndexOf(t) && SkipToken(Encode(t) + rest) == rest
    ensures ReadBack(t) == t && Survives(t) && DecodeIndex(t) == IndexOf(t) && t != DASH
  {
    hide Digits, Encode, DecodeIndex, DecodeInPlace, SkipToken, Survives;
    var n := IndexOf(t).value;
    DigitsSurvive(n);
    DecodeDigits(n, rest);
    SkipUntil(Encode(t), rest);
    DecodeUndoesEncode(t);
  }

  lemma KeyReads(ms: seq<Member>, t: Text, rest: Text, cs: bool)
    requires AtEnd(rest)
    ensures FindToken(ms, Encode(t) + rest, cs) == FindKey(ms, t, cs) && SkipToken(Encode(t) + rest) == rest
  {
    EncodeHasNoSlash(t);
    SkipUntil(Encode(t), rest);
    FindTokenIsFindKey(ms, t, rest, cs);
  }

  /** One token: the child that the code selects is the one the data has there. */
  lemma StepMeans(j: Json, t: Text, rest: Text, cs: bool)
    requires UniqueIn(j, cs) && AtEnd(rest) && (j.Array? ==> Countably(t))
    ensures var i := Select(j, Encode(t) + rest, cs);
      var c := Step(Denote(j), t, cs);
      && (i.None? <==> c.None?)
      && (i.Some? ==>
        UniqueIn(Child(j, i.value), cs) && c == Some(Denote(Child(j, i.value))) && SkipToken(Encode(t) + rest) == rest)
      && (i.Some? && j.Object? ==> Called(Denote(j).members.Keys, t, cs) == Some(j.members[i.value].key))
      && (i.Some? && j.Array? ==> i == IndexOf(t))
  {
    hide FindToken, FindKey, DecodeIndex, Encode, SkipToken, Called, ToMap;
    match j
    case Array(items) =>
      IndexReads(t, rest);
      assert |Denote(j).items| == |items|;
      ItemUnique(items, cs);
    case Object(members, tail) =>
      KeyReads(members, t, rest, cs);
      FindMeans(members, tail, t, cs);
    case _ =>
  }

  lemma ItemUnique(items: seq<Json>, cs: bool)
    requires UniqueIn(Array(items), cs)
    ensures forall i | 0 <= i < |items| :: UniqueIn(items[i], cs)
  {
    if !cs {
      forall i | 0 <= i < |items|
        ensures ApartIn(Denote(items[i]), false)
      {
        assert Denote(Array(items)).items[i] == Denote(items[i]);
      }
    }
  }

  /** The member that a lookup finds is the one that is called so. */
  lemma FindMeans(ms: seq<Member>, tail: Tail, t: Text, cs: bool)
    requires UniqueIn(Object(ms, tail), cs)
    ensures Distinct(ms) && UniqueMembers(ms) && ToldApart(ToMap(ms).Keys, cs)
    ensures var i, k := FindKey(ms, t, cs), Called(ToMap(ms).Keys, t, cs);
      if i < |ms| then
        k == Some(ms[i].key) && ms[i].key in ToMap(ms) && ToMap(ms)[ms[i].key] == Denote(ms[i].value) &&
          UniqueIn(ms[i].value, cs)
      else k == None
  {
    hide ToMap, FindKey, ApartIn;
    ObjectApart(ms, tail, cs);
    MapOf(ms);
    var i, k := FindKey(ms, t, cs), Called(ToMap(ms).Keys, t, cs);
    if i < |ms| {
      SameNameCompares(t, ms[i].key, cs);
      assert SameName(k.value, ms[i].key, cs);
    } else {
      forall n | 0 <= n < |ms|
        ensures !SameName(t, ms[n].key, cs)
      {
        SameNameCompares(t, ms[n].key, cs);
      }
    }
  }

  lemma ObjectApart(ms: seq<Member>, tail: Tail, cs: bool)
    ensures UniqueIn(Object(ms, tail), cs) <==>
      && UniqueMembers(ms) && ToldApart(ToMap(ms).Keys, cs)
      && (cs || forall k | k in ToMap(ms) :: ApartIn(ToMap(ms)[k], false))
    ensures Denote(Object(ms, tail)) == VObject(ToMap(ms))
  {}

  lemma ResolveUnfold(j: Json, t: Text, rest: Text, cs: bool)
    requires AtEnd(rest)
    ensures var i := Select(j, Encode(t) + rest, cs);
      Resolve(j, [SLASH] + Encode(t) + rest, cs) ==
        if i.None? then None
        else
          var r := Resolve(Child(j, i.value), SkipToken(Encode(t) + rest), cs);
          if r.None? then None else Some([i.value] + r.value)
  {
    var p := [SLASH] + Encode(t) + rest;
    assert p[1..] == Encode(t) + rest;
  }

  /** A pointer leads to the node that means what the pointer means in the data. */
  lemma {:induction false} ResolveMeans(j: Json, ts: Tokens, cs: bool)
    requires UniqueIn(j, cs) && Indexed(Denote(j), ts, cs)
    ensures var at := Resolve(j, PathOf(ts), cs);
      && (at.None? <==> Lookup(Denote(j), ts, cs).None?)
      && (at.Some? ==>
        UniqueIn(NodeAt(j, at.value), cs) && Lookup(Denote(j), ts, cs) == Some(Denote(NodeAt(j, at.value))))
    decreases |ts|
  {
    hide Denote, UniqueIn, Unique, Select, SkipToken, Encode, Step;
    if ts != [] {
      var t, rest := ts[0], PathOf(ts[1..]);
      ArrayMeans(j);
      StepMeans(j, t, rest, cs);
      ResolveUnfold(j, t, rest, cs);
      var i := Select(j, Encode(t) + rest, cs);
      if i.Some? {
        ResolveMeans(Child(j, i.value), ts[1..], cs);
        var r := Resolve(Child(j, i.value), rest, cs);
        if r.Some? {
          assert ([i.value] + r.value)[1..] == r.value;
        }
      }
    }
  }

  lemma ArrayMeans(j: Json)
    ensures (Denote(j).VArray? <==> j.Array?) && (Denote(j).VObject? <==> j.Object?)
  {}

  lemma SetChildMeans(j: Json, i: nat, c: Json, cs: bool)
    requires UniqueIn(j, cs) && i < Width(j) && UniqueIn(c, cs)
    ensures UniqueIn(SetChild(j, i, c), cs)
    ensures j.Object? ==> Denote(SetChild(j, i, c)) == VObject(Denote(j).members[j.members[i].key := Denote(c)])
    ensures j.Array? ==> Denote(SetChild(j, i, c)) == VArray(Denote(j).items[i := Denote(c)])
  {
    match j
    case Array(items) =>
      assert Denote(SetChild(j, i, c)).items == Denote(j).items[i := Denote(c)];
    case Object(members, tail) =>
      hide UniqueIn;
      SetMemberMeans(members, tail, i, c, cs);
  }

  lemma SetMemberMeans(ms: seq<Member>, tail: Tail, i: nat, c: Json, cs: bool)
    requires UniqueIn(Object(ms, tail), cs) && i < |ms| && UniqueIn(c, cs)
    ensures var more := Object(ms[i := ms[i].(value := c)], tail);
      UniqueIn(more, cs) && Denote(more) == VObject(ToMap(ms)[ms[i].key := Denote(c)])
  {
    hide ToMap, UniqueIn, Denote, ApartIn, Unique, UniqueMembers;
    var more := ms[i := ms[i].(value := c)];
    UniqueTree(c, cs);
    ObjectApart(ms, tail, cs);
    ObjectApart(more, tail, cs);
    UpdatedMap(ms, i, c);
    DistinctNames(ms);
    MapOf(ms);
    assert ToMap(more).Keys == ToMap(ms).Keys;
  }

  lemma UniqueTree(j: Json, cs: bool)
    requires UniqueIn(j, cs)
    ensures Unique(j) && (cs || ApartIn(Denote(j), false))
  {}

  /** Changing the node changes the data at that place and nowhere else. */
  lemma {:induction false} ReplaceMeans(j: Json, ts: Tokens, c: Json, cs: bool)
    requires UniqueIn(j, cs) && Indexed(Denote(j), ts, cs) && Resolve(j, PathOf(ts), cs).Some? && UniqueIn(c, cs)
    ensures Lookup(Denote(j), ts, cs).Some?
    ensures var r := ReplaceNode(j, Resolve(j, PathOf(ts), cs).value, c);
      UniqueIn(r, cs) && Denote(r) == Update(Denote(j), ts, Denote(c), cs)
    decreases |ts|
  {
    hide Denote, UniqueIn, Unique, Select, SkipToken, Encode, SetChild;
    ResolveMeans(j, ts, cs);
    if ts != [] {
      var t, rest := ts[0], PathOf(ts[1..]);
      ArrayMeans(j);
      StepMeans(j, t, rest, cs);
      ResolveUnfold(j, t, rest, cs);
      var i := Select(j, Encode(t) + rest, cs).value;
      var k := Child(j, i);
      ReplaceMeans(k, ts[1..], c, cs);
      var r := Resolve(k, rest, cs).value;
      assert ([i] + r)[1..] == r;
      SetChildMeans(j, i, ReplaceNode(k, r, c), cs);
      ChildIsValue(j, i);
    }
  }

  lemma ChildIsValue(j: Json, i: nat)
    requires i < Width(j)
    ensures j.Array? || j.Object?
  {}

  // ----- at the parent

  /** What an addition asks of the name under an existing parent. */
  ghost predicate Takes(parent: Json, t: Text, cs: bool) {
    match parent
    case Array(_) => t == DASH || Countably(t)
    case Object(ms, tail) => Survives(t) && Ends(ms, tail, t, cs)
    case _ => true
  }

  /** What a removal asks: the lookup without regard to case finds just what the exact one finds. */
  ghost predicate Yields(parent: Json, t: Text, cs: bool) {
    match parent
    case Array(_) => Countably(t)
    case Object(ms, _) => Survives(t) && FindKey(ms, t, false) == FindKey(ms, t, cs)
    case _ => true
  }

  lemma TakenMember(ms: seq<Member>, tail: Tail, t: Text, v: Json, cs: bool)
    requires UniqueIn(Object(ms, tail), cs) && UniqueIn(v, cs) && Ends(ms, tail, t, cs)
    ensures var r := AddBelow(Object(ms, tail), t, v, cs);
      Succeeds(r) && UniqueIn(r.root, cs) && Denote(r.root) == VObject(Without(ToMap(ms), t, cs)[t := Denote(v)])
  {
    hide UniqueMembers, UniqueIn, Unique, ToMap, Denote, RemoveAt, RemoveTail, LinkMember, FindKey, Called, ApartIn,
      Append;
    FindMeans(ms, tail, t, cs);
    ObjectApart(ms, tail, cs);
    UniqueTree(v, cs);
    WithoutApart(ToMap(ms), t, Denote(v), cs);
    var i := FindKey(ms, t, cs);
    if i < |ms| {
      RemovedMap(ms, i);
      LinkMemberMeans(RemoveAt(ms, i), Last, Entry(t, v));
    } else {
      LinkMemberMeans(ms, Last, Entry(t, v));
      EmptyLink(tail, Entry(t, v));
      assert Without(ToMap(ms), t, cs) == ToMap(ms);
    }
    var r := AddBelow(Object(ms, tail), t, v, cs);
    assert Leaves(r, Without(ToMap(ms), t, cs)[t := Denote(v)]);
    assert r.root.Object?;
    ObjectApart(r.root.members, r.root.tail, cs);
    ObjectDenotes(r.root.members);
  }

  /** Without the name that is alike, a name can be added. */
  lemma WithoutApart(m: map<Text, Value>, t: Text, w: Value, cs: bool)
    requires ToldApart(m.Keys, cs) && (cs || (ApartIn(w, false) && forall k | k in m :: ApartIn(m[k], false)))
    ensures t !in Without(m, t, cs)
    ensures var r := Without(m, t, cs)[t := w];
      ToldApart(r.Keys, cs) && (cs || forall k | k in r :: ApartIn(r[k], false))
  {
    hide ApartIn;
    var r := Without(m, t, cs)[t := w];
    var k := Called(m.Keys, t, cs);
    assert forall l | l in Without(m, t, cs) :: l in m && !SameName(t, l, cs) by {
      forall l | l in Without(m, t, cs)
        ensures l in m && !SameName(t, l, cs)
      {}
    }
  }

  lemma EmptyLink(tail: Tail, m: Member)
    ensures LinkMember([], tail, m) == LinkMember([], Last, m)
  {}

  lemma AddBelowIsAdd(parent: Json, t: Text, v: Json, cs: bool)
    requires UniqueIn(parent, cs) && UniqueIn(v, cs) && Takes(parent, t, cs)
    ensures var r := AddBelow(parent, ReadBack(t), v, cs);
      var want := AddChild(Denote(parent), t, Denote(v), cs);
      && (Succeeds(r) <==> want.Some?) && (Succeeds(r) ==> UniqueIn(r.root, cs) && Denote(r.root) == want.value)
  {
    match parent
    case Array(items) =>
      ElementAdded(items, t, v, cs);
    case Object(ms, tail) =>
      hide AddBelow, Ends, Survives, Without, UniqueIn;
      DecodeUndoesEncodeHere(t);
      TakenMember(ms, tail, t, v, cs);
    case _ =>
  }

  lemma ElementAdded(items: seq<Json>, t: Text, v: Json, cs: bool)
    requires UniqueIn(Array(items), cs) && UniqueIn(v, cs) && (t == DASH || Countably(t))
    ensures var r := AddBelow(Array(items), ReadBack(t), v, cs);
      var want := AddChild(Denote(Array(items)), t, Denote(v), cs);
      && (Succeeds(r) <==> want.Some?) && (Succeeds(r) ==> UniqueIn(r.root, cs) && Denote(r.root) == want.value)
  {
    hide DecodeIndex, ReadBack, Denote, Encode, DecodeInPlace;
    ItemsOf(items);
    if t == DASH {
      EncodePlain(DASH);
      PlainSurvives(DASH);
      DecodeUndoesEncodeHere(DASH);
      InsertedItem(items, |items|, v, cs);
      assert items[..|items|] + [v] + items[|items|..] == items + [v];
    } else {
      IndexReads(t, []);
      var n := IndexOf(t).value;
      if n <= |items| {
        InsertedItem(items, n, v, cs);
      }
    }
  }

  lemma ItemsOf(items: seq<Json>)
    ensures Denote(Array(items)).VArray? && |Denote(Array(items)).items| == |items|
  {}

  lemma InsertedItem(items: seq<Json>, n: nat, v: Json, cs: bool)
    requires n <= |items| && UniqueIn(Array(items), cs) && UniqueIn(v, cs)
    ensures var s := Denote(Array(items)).items;
      var more := items[..n] + [v] + items[n..];
      && |s| == |items| && UniqueIn(Array(more), cs) && Denote(Array(more)) == VArray(s[..n] + [Denote(v)] + s[n..])
      && (n == |items| ==> s[..n] + [Denote(v)] + s[n..] == s + [Denote(v)])
  {
    var s := Denote(Array(items)).items;
    var more := items[..n] + [v] + items[n..];
    assert Denote(Array(more)).items == s[..n] + [Denote(v)] + s[n..];
  }

  /** Unlinking a child takes its value out of the data. */
  lemma DetachIsRemove(parent: Json, t: Text, cs: bool)
    requires UniqueIn(parent, cs) && Yields(parent, t, cs)
    ensures var i := ChildToDetach(parent, ReadBack(t));
      var want := RemoveChildOf(Denote(parent), t, cs);
      && (i.Some? <==> want.Some?)
      && (i.Some? ==> var r := RemoveChild(parent, i.value);
        UniqueIn(r, cs) && Denote(r) == want.value && UniqueIn(Child(parent, i.value), cs) &&
          Step(Denote(parent), t, cs) == Some(Denote(Child(parent, i.value))))
  {
    hide FindKey, Survives, ToMap, RemoveAt, DecodeIndex, ReadBack, Encode, UniqueIn, Unique, Called;
    match parent
    case Array(items) =>
      IndexReads(t, []);
      ItemsOf(items);
      if IndexOf(t).value < |items| {
        RemovedItem(items, IndexOf(t).value, cs);
      }
    case Object(ms, tail) =>
      DecodeUndoesEncodeHere(t);
      FindMeans(ms, tail, t, cs);
      ObjectApart(ms, tail, cs);
      var i := FindKey(ms, t, cs);
      if i < |ms| {
        RemovedMap(ms, i);
        ObjectApart(RemoveAt(ms, i), RemoveTail(|ms|, tail, i), cs);
      }
    case _ =>
  }

  lemma RemovedItem(items: seq<Json>, n: nat, cs: bool)
    requires n < |items| && UniqueIn(Array(items), cs)
    ensures UniqueIn(Array(RemoveAt(items, n)), cs) && UniqueIn(items[n], cs)
    ensures |Denote(Array(items)).items| == |items| && Denote(Array(items)).items[n] == Denote(items[n])
    ensures Denote(Array(RemoveAt(items, n))) == VArray(RemoveAt(Denote(Array(items)).items, n))
  {
    assert Denote(Array(RemoveAt(items, n))).items == RemoveAt(Denote(Array(items)).items, n);
    ItemUnique(items, cs);
  }

  // ----- whole operations

  ghost predicate Addable(root: Json, ts: Tokens, cs: bool)
    requires ts != []
  {
    && Indexed(Denote(root), Front(ts), cs)
    && var at := Resolve(root, PathOf(Front(ts)), cs); at.Some? ==> Takes(NodeAt(root, at.value), Final(ts), cs)
  }

  ghost predicate Removable(root: Json, ts: Tokens, cs: bool)
    requires ts != []
  {
    && Indexed(Denote(root), Front(ts), cs)
    && var at := Resolve(root, PathOf(Front(ts)), cs); at.Some? ==> Yields(NodeAt(root, at.value), Final(ts), cs)
  }

  /** The outcome is the RFC's: the same success, and the same data. */
  ghost predicate Agrees(r: Applied, want: Option<Value>, cs: bool) {
    && (Succeeds(r) <==> want.Some?)
    && (Succeeds(r) ==> UniqueIn(r.root, cs) && Denote(r.root) == want.value)
  }

  lemma AddSplit(root: Json, ts: Tokens, v: Json, cs: bool)
    requires ts != []
    ensures AddAt(root, PathOf(ts), v, cs) == AddFrom(root, PathOf(Front(ts)), Encode(Final(ts)), v, cs)
  {
    hide AddFrom, PathOf, Encode, LastSlash;
    SplitPath(ts);
  }

  /** Section 4.1: addition, of a member or of an element in front of, between or behind the others. */
  lemma AddMeans(root: Json, ts: Tokens, v: Json, cs: bool)
    requires UniqueIn(root, cs) && UniqueIn(v, cs) && ts != [] && Addable(root, ts, cs)
    ensures Agrees(AddAt(root, PathOf(ts), v, cs), RfcAdd(Denote(root), ts, Denote(v), cs), cs)
  {
    hide UniqueIn, Unique, Denote, PathOf, Encode, DecodeInPlace, AddBelow, AddChild, Takes, Indexed, Lookup, Update,
      Resolve, NodeAt, ReplaceNode, AddAt, LastSlash, ValidPosition;
    AddSplit(root, ts, v, cs);
    ResolveMeans(root, Front(ts), cs);
    var at := Resolve(root, PathOf(Front(ts)), cs);
    if at.Some? {
      var parent := NodeAt(root, at.value);
      AddBelowIsAdd(parent, Final(ts), v, cs);
      var r := AddBelow(parent, ReadBack(Final(ts)), v, cs);
      if Succeeds(r) {
        ReplaceMeans(root, Front(ts), r.root, cs);
      }
    }
  }

  /** Section 4.2: removal. */
  lemma RemoveMeans(root: Json, ts: Tokens, cs: bool)
    requires UniqueIn(root, cs) && ts != [] && Removable(root, ts, cs)
    ensures var d := DetachPath(root, PathOf(ts), cs);
      var want := RfcRemove(Denote(root), ts, cs);
      && (d.Detached? <==> want.Some?)
      && (d.Detached? ==>
        UniqueIn(d.root, cs) && Denote(d.root) == want.value && UniqueIn(d.item, cs) &&
        Lookup(Denote(root), ts, cs) == Some(Denote(d.item)))
  {
    hide UniqueIn, Unique, Denote, PathOf, Encode, DecodeInPlace, ChildToDetach, RemoveChildOf, Yields, Indexed, Step,
      RemoveChild;
    SplitPath(ts);
    ResolveMeans(root, Front(ts), cs);
    LookupLast(Denote(root), ts, cs);
    var at := Resolve(root, PathOf(Front(ts)), cs);
    if at.Some? {
      var parent := NodeAt(root, at.value);
      DetachIsRemove(parent, Final(ts), cs);
      var i := ChildToDetach(parent, ReadBack(Final(ts)));
      if i.Some? {
        ReplaceMeans(root, Front(ts), RemoveChild(parent, i.value), cs);
      }
    }
  }

  /** Section 4.6: a test succeeds if and only if the data at that place is equal, and changes no data. */
  lemma TestMeans(root: Json, ts: Tokens, v: Json, cs: bool)
    requires UniqueIn(root, cs) && UniqueIn(v, cs) && Indexed(Denote(root), ts, cs)
    ensures var r := TestAt(root, PathOf(ts), Some(v), cs);
      && r.Applied? && (r.status == 0 <==>
        var x := Lookup(Denote(root), ts, cs); x.Some? && SeenAs(x.value, cs) == SeenAs(Denote(v), cs))
      && UniqueIn(r.root, cs) && Denote(r.root) == Denote(root)
  {
    hide UniqueIn, Unique, Denote, PathOf, CompareJson, Contents, Indexed, SeenAs;
    ResolveMeans(root, ts, cs);
    var at := Resolve(root, PathOf(ts), cs);
    if at.Some? {
      var node := NodeAt(root, at.value);
      CompareDecides(node, v, cs);
      CompareKeeps(node, v, cs);
      ReorderedUnique(node, CompareJson(node, v, cs).a, cs);
      ReplaceMeans(root, ts, CompareJson(node, v, cs).a, cs);
      UpdateSame(Denote(root), ts, cs);
    }
  }

  lemma ReorderedUnique(x: Json, y: Json, cs: bool)
    requires UniqueIn(x, cs) && Reordered(x, y)
    ensures UniqueIn(y, cs) && Denote(y) == Denote(x)
  {}

  lemma {:induction false} UpdateSame(v: Value, ts: Tokens, cs: bool)
    requires Lookup(v, ts, cs).Some?
    ensures Update(v, ts, Lookup(v, ts, cs).value, cs) == v
    decreases |ts|
  {
    if ts != [] {
      UpdateSame(Step(v, ts[0], cs).value, ts[1..], cs);
    }
  }

  /** v is the value of the first member that is called so. */
  ghost predicate Holds(patch: Json, name: Text, v: Json, cs: bool) {
    patch.Object? && exists i ::
      && 0 <= i < |patch.members| && SameName(name, patch.members[i].key, cs) && patch.members[i].value == v
      && forall k | 0 <= k < i :: !SameName(name, patch.members[k].key, cs)
  }

  lemma HoldsFound(patch: Json, name: Text, v: Json, cs: bool)
    requires Holds(patch, name, v, cs)
    ensures GetItem(patch, name, cs) == Some(v)
  {
    var ms, i := patch.members, FindKey(patch.members, name, cs);
    forall k | 0 <= k < |ms|
      ensures SameName(name, ms[k].key, cs) <==> CompareStrings(name, ms[k].key, cs) == 0
    {
      SameNameCompares(name, ms[k].key, cs);
    }
  }

  function NameOf(op: RfcOp): Text {
    match op
    case Add(_, _) => Ascii("add")
    case Remove(_) => Ascii("remove")
    case Replace(_, _) => Ascii("replace")
    case Move(_, _) => Ascii("move")
    case Copy(_, _) => Ascii("copy")
    case Test(_, _) => Ascii("test")
  }

  lemma NamesAre()
    ensures Ascii("op") == OP && Ascii("path") == PATH && Ascii("value") == VALUE && Ascii("from") == FROM
    ensures Ascii("add") == ADD && Ascii("remove") == REMOVE && Ascii("replace") == REPLACE
    ensures Ascii("move") == MOVE && Ascii("copy") == COPY && Ascii("test") == TEST
  {}

  function CodeOf(op: RfcOp): Operation {
    match op
    case Add(_, _) => ADD_OP
    case Remove(_) => REMOVE_OP
    case Replace(_, _) => REPLACE_OP
    case Move(_, _) => MOVE_OP
    case Copy(_, _) => COPY_OP
    case Test(_, _) => TEST_OP
  }

  /** Section 4: a patch that spells the operation, with any further members, in any order. */
  ghost predicate Spells(patch: Json, op: RfcOp, cs: bool) {
    && Holds(patch, Ascii("op"), String(NameOf(op)), cs)
    && Holds(patch, Ascii("path"), String(PathOf(op.path)), cs)
    && (op.Add? || op.Replace? || op.Test? ==> Carries(patch, op.value, cs))
    && (op.Move? || op.Copy? ==> Holds(patch, Ascii("from"), String(PathOf(op.from)), cs))
  }

  ghost predicate Carries(patch: Json, w: Value, cs: bool) {
    exists v :: Holds(patch, Ascii("value"), v, cs) && UniqueIn(v, cs) && Denote(v) == w
  }

  lemma Coded(patch: Json, op: RfcOp, cs: bool)
    requires GetItem(patch, OP, cs) == Some(String(NameOf(op)))
    ensures DecodeOperation(patch, cs) == CodeOf(op)
  {
    hide GetItem, Ascii;
    NamesAre();
    assert |ADD| == 3 && |REMOVE| == 6 && |REPLACE| == 7 && |MOVE| == |COPY| == |TEST| == 4;
    assert MOVE[0] == 109 && COPY[0] == 99 && TEST[0] == 116;
  }

  /** What the code reads from such a patch. */
  lemma Spelled(patch: Json, op: RfcOp, cs: bool)
    requires Spells(patch, op, cs)
    ensures DecodeOperation(patch, cs) == CodeOf(op) && GetItem(patch, PATH, cs) == Some(String(PathOf(op.path)))
    ensures op.Add? || op.Replace? || op.Test? ==>
      var v := GetItem(patch, VALUE, cs); v.Some? && UniqueIn(v.value, cs) && Denote(v.value) == op.value
    ensures op.Move? || op.Copy? ==> GetItem(patch, FROM, cs) == Some(String(PathOf(op.from)))
  {
    hide Holds, UniqueIn, Denote, PathOf, GetItem, Ascii;
    NamesAre();
    HoldsFound(patch, OP, String(NameOf(op)), cs);
    Coded(patch, op, cs);
    HoldsFound(patch, PATH, String(PathOf(op.path)), cs);
    if op.Add? || op.Replace? || op.Test? {
      var v :| Holds(patch, VALUE, v, cs) && UniqueIn(v, cs) && Denote(v) == op.value;
      HoldsFound(patch, VALUE, v, cs);
    }
    if op.Move? || op.Copy? {
      HoldsFound(patch, FROM, String(PathOf(op.from)), cs);
    }
  }

  /** What the code asks of the document for an operation. The whole document cannot be moved, nor anything moved or
   copied into its place. */
  ghost predicate Meets(root: Json, op: RfcOp, cs: bool) {
    match op
    case Add(path, _) => path == [] || Addable(root, path, cs)
    case Remove(path) => path == [] || Removable(root, path, cs)
    case Replace(path, _) => path == [] ||
      (Removable(root, path, cs) && StillAddable(DetachPath(root, PathOf(path), cs), path, cs))
    case Move(from, path) =>
      from != [] && path != [] && Removable(root, from, cs) &&
        StillAddable(DetachPath(root, PathOf(from), cs), path, cs)
    case Copy(from, path) => path != [] && Indexed(Denote(root), from, cs) && Addable(root, path, cs)
    case Test(path, _) => Indexed(Denote(root), path, cs)
  }

  ghost predicate StillAddable(d: Detached, ts: Tokens, cs: bool)
    requires ts != []
  {
    d.Detached? ==> Addable(d.root, ts, cs)
  }

  lemma PathNotEmpty(ts: Tokens)
    ensures PathOf(ts) == [] <==> ts == []
  {}

  /** Which part of `apply_patch` a patch reaches. */
  lemma Dispatched(root: Json, patch: Json, op: RfcOp, cs: bool)
    requires Spells(patch, op, cs)
    ensures var r, v, p := ApplyPatch(root, patch, cs), GetItem(patch, VALUE, cs), PathOf(op.path);
      && (op.Add? || op.Replace? ==> v.Some?)
      && (op.Add? ==> r == if p == [] then Applied(0, Fresh(v.value)) else AddAt(root, p, Fresh(v.value), cs))
      && (op.Test? ==> r == TestAt(root, p, v, cs))
    ensures op.Remove? ==> var r, d := ApplyPatch(root, patch, cs), DetachPath(root, PathOf(op.path), cs);
      r == if PathOf(op.path) == [] then Applied(0, Invalid) else if d.NotFound? then Applied(13, root)
        else Applied(0, d.root)
    ensures op.Replace? ==> var r, d := ApplyPatch(root, patch, cs), DetachPath(root, PathOf(op.path), cs);
      var v := Fresh(GetItem(patch, VALUE, cs).value);
      r == if PathOf(op.path) == [] then Applied(0, v)
           else if d.NotFound? then Applied(13, root) else AddAt(d.root, PathOf(op.path), v, cs)
    ensures op.Move? && op.path != [] ==>
      var r, d := ApplyPatch(root, patch, cs), DetachPath(root, PathOf(op.from), cs);
      r == if d.NotFound? then Applied(5, root) else AddAt(d.root, PathOf(op.path), d.item, cs)
    ensures op.Copy? && op.path != [] ==>
      var r, at := ApplyPatch(root, patch, cs), Resolve(root, PathOf(op.from), cs);
      r == if at.None? then Applied(5, root) else AddAt(root, PathOf(op.path), Fresh(NodeAt(root, at.value)), cs)
  {
    hide PathOf, GetItem, DecodeOperation, AddAt, DetachPath, TestAt, Fresh, Resolve, NodeAt, UniqueIn, Unique,
      Denote, Spells;
    Spelled(patch, op, cs);
  }

  lemma ReplaceOpMeans(root: Json, patch: Json, op: RfcOp, cs: bool)
    requires op.Replace? && UniqueIn(root, cs) && Spells(patch, op, cs) && Meets(root, op, cs)
    ensures Agrees(ApplyPatch(root, patch, cs), RfcApply(Denote(root), op, cs), cs)
  {
    hide UniqueIn, Unique, Denote, PathOf, GetItem, DecodeOperation, AddAt, DetachPath, TestAt, RfcAdd, RfcRemove,
      Fresh, Addable, Removable, Indexed, ApplyPatch, Lookup, Resolve, NodeAt;
    Dispatched(root, patch, op, cs);
    PathNotEmpty(op.path);
    var v := Carried(patch, op, cs);
    if op.path == [] {
      WholeMeans(Denote(root), VInvalid, cs);
      WholeMeans(VInvalid, op.value, cs);
    } else {
      RemoveMeans(root, op.path, cs);
      var d := DetachPath(root, PathOf(op.path), cs);
      if d.Detached? {
        AddMeans(d.root, op.path, v, cs);
      }
    }
  }

  lemma MoveOpMeans(root: Json, patch: Json, op: RfcOp, cs: bool)
    requires op.Move? && UniqueIn(root, cs) && Spells(patch, op, cs) && Meets(root, op, cs)
    ensures Agrees(ApplyPatch(root, patch, cs), RfcApply(Denote(root), op, cs), cs)
  {
    hide UniqueIn, Unique, Denote, PathOf, GetItem, DecodeOperation, AddAt, DetachPath, TestAt, RfcAdd, RfcRemove,
      Fresh, Addable, Removable, Indexed, ApplyPatch, Lookup, Resolve, NodeAt;
    Dispatched(root, patch, op, cs);
    RemoveMeans(root, op.from, cs);
    var d := DetachPath(root, PathOf(op.from), cs);
    if d.Detached? {
      AddMeans(d.root, op.path, d.item, cs);
    }
  }

  lemma CopyOpMeans(root: Json, patch: Json, op: RfcOp, cs: bool)
    requires op.Copy? && UniqueIn(root, cs) && Spells(patch, op, cs) && Meets(root, op, cs)
    ensures Agrees(ApplyPatch(root, patch, cs), RfcApply(Denote(root), op, cs), cs)
  {
    hide UniqueIn, Unique, Denote, PathOf, GetItem, DecodeOperation, AddAt, DetachPath, TestAt, RfcAdd, RfcRemove,
      Fresh, Addable, Removable, Indexed, ApplyPatch, Lookup, Resolve, NodeAt;
    Dispatched(root, patch, op, cs);
    ResolveMeans(root, op.from, cs);
    var at := Resolve(root, PathOf(op.from), cs);
    if at.Some? {
      FreshUnique(NodeAt(root, at.value), cs);
      AddMeans(root, op.path, Fresh(NodeAt(root, at.value)), cs);
    }
  }

  /** RFC 6902, sections 4.1 to 4.6: every operation does to the data what the RFC says, and fails when the RFC says so.
   */
  lemma ApplyPatchMeans(root: Json, patch: Json, op: RfcOp, cs: bool)
    requires UniqueIn(root, cs) && Spells(patch, op, cs) && Meets(root, op, cs)
    ensures Agrees(ApplyPatch(root, patch, cs), RfcApply(Denote(root), op, cs), cs)
  {
    hide UniqueIn, Unique, Denote, PathOf, GetItem, DecodeOperation, AddAt, DetachPath, TestAt, RfcAdd, RfcRemove,
      Fresh, Addable, Removable, Indexed, ApplyPatch, Lookup, Resolve, NodeAt;
    Dispatched(root, patch, op, cs);
    PathNotEmpty(op.path);
    match op
    case Add(path, w) =>
      WholeMeans(Denote(root), w, cs);
      var v := Carried(patch, op, cs);
      if path != [] {
        AddMeans(root, path, v, cs);
      }
    case Remove(path) =>
      WholeMeans(Denote(root), VInvalid, cs);
      if path != [] {
        RemoveMeans(root, path, cs);
      }
    case Replace(_, _) => ReplaceOpMeans(root, patch, op, cs);
    case Move(_, _) => MoveOpMeans(root, patch, op, cs);
    case Copy(_, _) => CopyOpMeans(root, patch, op, cs);
    case Test(path, w) =>
      var v := Carried(patch, op, cs);
      TestMeans(root, path, GetItem(patch, VALUE, cs).value, cs);
  }

  /** The value of a patch, duplicated. */
  lemma Carried(patch: Json, op: RfcOp, cs: bool) returns (v: Json)
    requires Spells(patch, op, cs) && (op.Add? || op.Replace? || op.Test?)
    ensures GetItem(patch, VALUE, cs).Some?
    ensures v == Fresh(GetItem(patch, VALUE, cs).value) && UniqueIn(v, cs) && Denote(v) == op.value
    ensures UniqueIn(GetItem(patch, VALUE, cs).value, cs) && Denote(GetItem(patch, VALUE, cs).value) == op.value
  {
    hide Spells;
    Spelled(patch, op, cs);
    v := Fresh(GetItem(patch, VALUE, cs).value);
    FreshUnique(GetItem(patch, VALUE, cs).value, cs);
  }

  lemma FreshUnique(j: Json, cs: bool)
    requires UniqueIn(j, cs)
    ensures UniqueIn(Fresh(j), cs) && Denote(Fresh(j)) == Denote(j)
  {
    FreshMeans(j);
  }

  lemma WholeMeans(v: Value, w: Value, cs: bool)
    ensures RfcAdd(v, [], w, cs) == Some(w) && RfcRemove(v, [], cs) == Some(VInvalid) && UniqueIn(Invalid, cs)
    ensures Denote(Invalid) == VInvalid
  {}

  /** The code asks of each operation what it asks of the document that those before it have left. */
  ghost predicate MeetsAll(root: Json, patches: seq<Json>, ops: seq<RfcOp>, cs: bool)
    requires |patches| == |ops|
    decreases |ops|
  {
    ops != [] ==>
      && Spells(patches[0], ops[0], cs) && Meets(root, ops[0], cs)
      && var r := ApplyPatch(root, patches[0], cs); Succeeds(r) ==> MeetsAll(r.root, patches[1..], ops[1..], cs)
  }

  /** Section 5: a whole patch document succeeds if and only if all its operations do, and leaves what they leave. */
  lemma {:induction false} ApplyAllMeans(root: Json, patches: seq<Json>, ops: seq<RfcOp>, cs: bool)
    requires UniqueIn(root, cs) && |patches| == |ops| && MeetsAll(root, patches, ops, cs)
    ensures Agrees(ApplyAll(root, patches, cs), RfcApplyAll(Denote(root), ops, cs), cs)
    decreases |ops|
  {
    hide UniqueIn, Unique, Denote, ApplyPatch, RfcApply, Spells, Meets;
    if ops != [] {
      ApplyPatchMeans(root, patches[0], ops[0], cs);
      var r := ApplyPatch(root, patches[0], cs);
      if Succeeds(r) {
        ApplyAllMeans(r.root, patches[1..], ops[1..], cs);
      }
    }
  }

  lemma ApplyPatchesMeans(root: Json, patches: seq<Json>, ops: seq<RfcOp>, cs: bool)
    requires UniqueIn(root, cs) && |patches| == |ops| && MeetsAll(root, patches, ops, cs)
    ensures Agrees(ApplyPatches(root, Array(patches), cs), RfcApplyAll(Denote(root), ops, cs), cs)
  {
    ApplyAllMeans(root, patches, ops, cs);
  }

  // ----- where the code departs from the RFC

  /** RFC 6902, section 4.5, allows copying a value over the whole document; the code refuses that, and every move
   there. */
  lemma WholeIsRefused(root: Json, patch: Json, caseSensitive: bool)
    requires GetItem(patch, PATH, caseSensitive) == Some(String([]))
    requires DecodeOperation(patch, caseSensitive) == MOVE_OP || DecodeOperation(patch, caseSensitive) == COPY_OP
    ensures !Succeeds(ApplyPatch(root, patch, caseSensitive))
  {
    hide GetItem, DecodeOperation, DetachPath, TestAt, Resolve, Fresh;
  }

  /**
   A `test` of an object sorts it, and an addition of a new member to it afterwards works
   exactly if that has moved neither the first member nor the last: otherwise the patch
   reports success, and the new member or others are lost.
   */
  lemma TestThenAdd(ms: seq<Member>, value: Json, k: Text, v: Json)
    requires UniqueMembers(ms) && ms != [] && value.Object? && Unique(v) && k !in ToMap(ms) && Survives(k)
    ensures var tested := TestAt(Object(ms), [], Some(value), true);
      var places := MergeSort(Tagged(ms), true);
      && tested.Applied? && |places| == |ms|
      && (Leaves(ApplyEdit(tested.root, Edit(ADD, KeyPath(k), Some(v))), ToMap(ms)[k := Denote(v)]) <==>
          places[0].value == 0 && places[|ms|-1].value == |ms| - 1)
  {
    hide CompareJson, Denote, ToMap, UniqueIn, Unique, MergeSort, SortTail, ApplyEdit, Survives, Contents, Leaves;
    var r := CompareJson(Object(ms), value, true);
    CompareKeeps(Object(ms), value, true);
    TestedObject(ms, value);
    SortKeepsTail(ms, true);
    TailsFit(ms, Last, 0, true);
    AddedExactly(r.a.members, r.a.tail, k, v);
  }

  lemma TestedObject(ms: seq<Member>, value: Json)
    requires UniqueMembers(ms) && value.Object?
    requires Reordered(Object(ms), CompareJson(Object(ms), value, true).a)
    ensures var a := CompareJson(Object(ms), value, true).a;
      && TestAt(Object(ms), [], Some(value), true).Applied? && TestAt(Object(ms), [], Some(value), true).root == a
      && a.Object? && a.tail == SortTail(ms, Last, true) && |a.members| == |ms|
      && UniqueMembers(a.members) && ToMap(a.members) == ToMap(ms)
  {
    hide SortTail, Contents, MergeSort, ToMap;
    SortPermutes(ms, true);
    PermutationLength(ms, MergeSort(ms, true));
    var x, y := MergeSort(ms, true), MergeSort(value.members, true);
    forall i | 0 <= i < |x|
      ensures x[i].value < Object(ms) && Depth(x[i].value) < Depth(Object(ms))
    {
      SameElements(ms, x, x[i]);
    }
    CompareMembersKeeps(Object(ms), x, y, true);
    ObjectDenotes(ms);
    ObjectDenotes(CompareJson(Object(ms), value, true).a.members);
  }

  lemma ObjectDenotes(ms: seq<Member>)
    ensures forall tail :: Denote(Object(ms, tail)) == VObject(ToMap(ms))
    ensures forall tail :: Unique(Object(ms, tail)) <==> UniqueMembers(ms)
  {}
}
