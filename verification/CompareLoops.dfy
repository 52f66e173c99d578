/** The two comparison routines as they run: loops over the sibling lists, with early exits. */
module CompareLoops {
  import opened Strings
  import opened Sorting
  import opened Tails
  import opened Json
  import opened Compare

  /** `compare_json`; the returned trees are the arguments after the in-place sorting it did. */
  method RunCompareJson(a: Json, b: Json, caseSensitive: bool) returns (same: bool, a': Json, b': Json)
    ensures Compared(same, a', b') == CompareJson(a, b, caseSensitive)
    decreases Depth(a), 1
  {
    same, a', b' := false, a, b;
    match (a, b)
    case (Invalid, Invalid) => same := true;
    case (False, False) => same := true;
    case (True, True) => same := true;
    case (Null, Null) => same := true;
    case (Number(m), Number(n)) => same := m == n;
    case (String(s), String(t)) => same := s == t;
    case (Array(s), Array(t)) =>
      var x, y;
      same, x, y := CompareChildren(s, t, caseSensitive);
      a', b' := Array(x), Array(y);
    case (Object(s, tail), Object(t, other)) =>
      var x, y := MergeSort(s, caseSensitive), MergeSort(t, caseSensitive);
      SortPermutes(s, caseSensitive);
      forall m | m in x
        ensures m.value < a && Depth(m.value) < Depth(a)
      {
        SameElements(s, x, m);
      }
      same, x, y := CompareSorted(a, x, y, caseSensitive);
      a', b' := Object(x, SortTail(s, tail, caseSensitive)), Object(y, SortTail(t, other, caseSensitive));
    case _ =>
  }

  method CompareChildren(s: seq<Json>, t: seq<Json>, caseSensitive: bool)
    returns (same: bool, s': seq<Json>, t': seq<Json>)
    ensures Compared(same, s', t') == CompareItems(s, t, caseSensitive)
    decreases 1 + DeepestItem(s), 0
  {
    var a, b := s, t;
    s', t' := [], [];
    PrependNothing(CompareItems(s, t, caseSensitive));
    while a != [] && b != []
      invariant forall i | 0 <= i < |a| :: Depth(a[i]) <= DeepestItem(s)
      invariant CompareItems(s, t, caseSensitive) == Prepend(s', t', CompareItems(a, b, caseSensitive))
      decreases |a|
    {
      ghost var rest := CompareItems(a[1..], b[1..], caseSensitive);
      var identical, x, y := RunCompareJson(a[0], b[0], caseSensitive);
      if !identical {
        return false, s' + ([x] + a[1..]), t' + ([y] + b[1..]);
      }
      PrependOne(s', x, t', y, rest);
      s', t' := s' + [x], t' + [y];
      a, b := a[1..], b[1..];
    }
    same, s', t' := a == [] && b == [], s' + a, t' + b;
  }

  ghost function Prepend<T>(a: seq<T>, b: seq<T>, rest: Compared<seq<T>>): Compared<seq<T>> {
    Compared(rest.same, a + rest.a, b + rest.b)
  }

  lemma PrependNothing<T>(rest: Compared<seq<T>>)
    ensures Prepend([], [], rest) == rest
  {
    assert [] + rest.a == rest.a && [] + rest.b == rest.b;
  }

  lemma PrependOne<T>(a: seq<T>, x: T, b: seq<T>, y: T, rest: Compared<seq<T>>)
    ensures Prepend(a, b, Compared(rest.same, [x] + rest.a, [y] + rest.b)) == Prepend(a + [x], b + [y], rest)
  {
    assert a + ([x] + rest.a) == (a + [x]) + rest.a;
    assert b + ([y] + rest.b) == (b + [y]) + rest.b;
  }

  method CompareSorted(ghost whole: Json, s: seq<Member>, t: seq<Member>, caseSensitive: bool)
    returns (same: bool, s': seq<Member>, t': seq<Member>)
    requires forall m | m in s :: m.value < whole && Depth(m.value) < Depth(whole)
    ensures Compared(same, s', t') == CompareMembers(whole, s, t, caseSensitive)
    decreases Depth(whole), 0
  {
    var a, b := s, t;
    s', t' := [], [];
    PrependNothing(CompareMembers(whole, s, t, caseSensitive));
    while a != [] && b != []
      invariant forall m | m in a :: m in s
      invariant CompareMembers(whole, s, t, caseSensitive) ==
        Prepend(s', t', CompareMembers(whole, a, b, caseSensitive))
      decreases |a|
    {
      if CompareStrings(a[0].key, b[0].key, caseSensitive) != 0 {
        return false, s' + a, t' + b;
      }
      ghost var rest := CompareMembers(whole, a[1..], b[1..], caseSensitive);
      var identical, x, y := RunCompareJson(a[0].value, b[0].value, caseSensitive);
      var m, n := a[0].(value := x), b[0].(value := y);
      if !identical {
        return false, s' + ([m] + a[1..]), t' + ([n] + b[1..]);
      }
      PrependOne(s', m, t', n, rest);
      s', t' := s' + [m], t' + [n];
      a, b := a[1..], b[1..];
    }
    same, s', t' := a == [] && b == [], s' + a, t' + b;
  }

  /** The lookup loop of `get_object_item`. */
  method GetObjectItem<V>(ms: seq<Entry<V>>, name: Text, caseSensitive: bool) returns (i: nat)
    ensures i == FindKey(ms, name, caseSensitive)
  {
    i := 0;
    while i < |ms| && CompareStrings(name, ms[i].key, caseSensitive) != 0
      invariant i <= |ms|
      invariant forall j | 0 <= j < i :: CompareStrings(name, ms[j].key, caseSensitive) != 0
    {
      i := i + 1;
    }
  }

  /** `cJSON_Compare`. */
  method RunCJsonCompare(a: Json, b: Json, caseSensitive: bool) returns (same: bool)
    ensures same == CJsonCompare(a, b, caseSensitive)
    decreases Depth(a) + Depth(b), 1
  {
    match (a, b)
    case (False, False) => return true;
    case (True, True) => return true;
    case (Null, Null) => return true;
    case (Number(m), Number(n)) => return m == n;
    case (String(s), String(t)) => return s == t;
    case (Array(s), Array(t)) =>
      var i := 0;
      while i < |s| && i < |t|
        invariant i <= |s| && i <= |t|
        invariant forall k | 0 <= k < i :: CJsonCompare(s[k], t[k], caseSensitive)
      {
        var identical := RunCJsonCompare(s[i], t[i], caseSensitive);
        if !identical {
          return false;
        }
        i := i + 1;
      }
      return i == |s| && i == |t|;
    case (Object(s, _), Object(t, _)) =>
      same := CompareAgainst(s, t, caseSensitive);
      if same {
        same := CompareAgainst(t, s, caseSensitive);
      }
    case _ => return false;
  }

  /** One of the two member loops of `cJSON_Compare`. */
  method CompareAgainst(ms: seq<Member>, others: seq<Member>, caseSensitive: bool) returns (same: bool)
    ensures same == AllMatch(ms, others, caseSensitive)
    decreases 1 + DeepestMember(ms) + DeepestMember(others), 2
  {
    var i := 0;
    while i < |ms|
      invariant i <= |ms|
      invariant forall j | 0 <= j < i :: Matches(ms[j], others, caseSensitive)
    {
      var k := GetObjectItem(others, ms[i].key, caseSensitive);
      if k == |others| {
        return false;
      }
      var identical := RunCJsonCompare(ms[i].value, others[k].value, caseSensitive);
      if !identical {
        return false;
      }
      i := i + 1;
    }
    return true;
  }
}
