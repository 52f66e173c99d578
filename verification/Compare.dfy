/**
 The two equalities of the library: `compare_json`, which sorts both objects in
 place and then walks them side by side, and `cJSON_Compare`, which looks every
 member up in the other object.
 */
module Compare {
  import opened Strings
  import opened Sorting
  import opened Tails
  import opened Json

  /** The answer of `compare_json` and the two trees it leaves behind. */
  datatype Compared<T> = Compared(same: bool, a: T, b: T)

  function CompareJson(a: Json, b: Json, caseSensitive: bool): Compared<Json>
    decreases a, 1, 0
  {
    match (a, b)
    case (Number(m), Number(n)) => Compared(m == n, a, b)
    case (String(s), String(t)) => Compared(s == t, a, b)
    case (Array(s), Array(t)) =>
      var r := CompareItems(s, t, caseSensitive);
      Compared(r.same, Array(r.a), Array(r.b))
    case (Object(s, tail), Object(t, other)) =>
      SortPermutes(s, caseSensitive);
      var x, y := MergeSort(s, caseSensitive), MergeSort(t, caseSensitive);
      assert forall m | m in x :: m.value < a by {
        forall m | m in x
          ensures m.value < a
        {
          SameElements(s, x, m);
        }
      }
      var r := CompareMembers(a, x, y, caseSensitive);
      Compared(r.same, Object(r.a, SortTail(s, tail, caseSensitive)), Object(r.b, SortTail(t, other, caseSensitive)))
    case _ =>
      Compared((a.Invalid? && b.Invalid?) || (a.False? && b.False?) || (a.True? && b.True?) ||
        (a.Null? && b.Null?), a, b)
  }

  function CompareItems(a: seq<Json>, b: seq<Json>, caseSensitive: bool): Compared<seq<Json>>
    decreases a, 0, |a|
  {
    if a == [] || b == [] then Compared(a == [] && b == [], a, b)
    else
      var head := CompareJson(a[0], b[0], caseSensitive);
      if !head.same then Compared(false, [head.a] + a[1..], [head.b] + b[1..])
      else
        var rest := CompareItems(a[1..], b[1..], caseSensitive);
        Compared(rest.same, [head.a] + rest.a, [head.b] + rest.b)
  }

  function CompareMembers(ghost whole: Json, a: seq<Member>, b: seq<Member>, caseSensitive: bool): Compared<seq<Member>>
    requires forall m | m in a :: m.value < whole
    decreases whole, 0, |a|
  {
    if a == [] || b == [] then Compared(a == [] && b == [], a, b)
    else if CompareStrings(a[0].key, b[0].key, caseSensitive) != 0 then Compared(false, a, b)
    else
      var head := CompareJson(a[0].value, b[0].value, caseSensitive);
      var x, y := a[0].(value := head.a), b[0].(value := head.b);
      if !head.same then Compared(false, [x] + a[1..], [y] + b[1..])
      else
        var rest := CompareMembers(whole, a[1..], b[1..], caseSensitive);
        Compared(rest.same, [x] + rest.a, [y] + rest.b)
  }

  /** `cJSON_Compare` on distinct trees; a loop over a's members, then one over b's. */
  predicate CJsonCompare(a: Json, b: Json, caseSensitive: bool)
    decreases Depth(a) + Depth(b), 0
  {
    match (a, b)
    case (Number(m), Number(n)) => m == n
    case (String(s), String(t)) => s == t
    case (Array(s), Array(t)) =>
      |s| == |t| && forall i | 0 <= i < |s| :: CJsonCompare(s[i], t[i], caseSensitive)
    case (Object(s, _), Object(t, _)) =>
      AllMatch(s, t, caseSensitive) && AllMatch(t, s, caseSensitive)
    case _ => (a.False? && b.False?) || (a.True? && b.True?) || (a.Null? && b.Null?)
  }

  predicate AllMatch(ms: seq<Member>, others: seq<Member>, caseSensitive: bool)
    decreases DeepestMember(ms) + 1 + DeepestMember(others), 2
  {
    forall i | 0 <= i < |ms| :: Matches(ms[i], others, caseSensitive)
  }

  predicate Matches(m: Member, others: seq<Member>, caseSensitive: bool)
    decreases Depth(m.value) + 1 + DeepestMember(others), 1
  {
    var k := FindKey(others, m.key, caseSensitive);
    k < |others| && CJsonCompare(m.value, others[k].value, caseSensitive)
  }
}
