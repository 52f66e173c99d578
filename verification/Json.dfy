/**
 JSON trees. `Json` keeps what the program keeps: members in list order, possibly with
 repeated names, and where the next append to them will arrive. `Value` is what such a
 tree means: an object is a map, so equality of values is equality of JSON data up to the
 order of members.
 */
module Json {
  import opened Strings
  import opened Sorting
  import opened Tails

  datatype Json =
    | Invalid
    | False
    | True
    | Null
    | Number(n: int)
    | String(s: Text)
    | Array(items: seq<Json>)
    | Object(members: seq<Member>, tail: Tail := Last)

  type Member = Entry<Json>

  datatype Value =
    | VInvalid
    | VFalse
    | VTrue
    | VNull
    | VNumber(n: int)
    | VString(s: Text)
    | VArray(items: seq<Value>)
    | VObject(members: map<Text, Value>)

  function Denote(j: Json): Value {
    match j
    case Invalid => VInvalid
    case False => VFalse
    case True => VTrue
    case Null => VNull
    case Number(n) => VNumber(n)
    case String(s) => VString(s)
    case Array(items) => VArray(seq(|items|, i requires 0 <= i < |items| => Denote(items[i])))
    case Object(members, _) => VObject(ToMap(members))
  }

  /** What the members mean; a repeated name means its first occurrence, the one a lookup finds. */
  function ToMap(ms: seq<Member>): map<Text, Value> {
    if ms == [] then map[]
    else ToMap(ms[1..])[ms[0].key := Denote(ms[0].value)]
  }

  /** No object, however deep, has two members of the same name. */
  ghost predicate Unique(j: Json) {
    match j
    case Array(items) => forall i | 0 <= i < |items| :: Unique(items[i])
    case Object(members, _) => Distinct(members) && forall i | 0 <= i < |members| :: Unique(members[i].value)
    case _ => true
  }

  ghost predicate UniqueMembers(ms: seq<Member>) {
    Distinct(ms) && forall i | 0 <= i < |ms| :: Unique(ms[i].value)
  }

  /** No node of the tree has the type cJSON_Invalid. */
  ghost predicate NoInvalid(j: Json) {
    match j
    case Invalid => false
    case Array(items) => forall i | 0 <= i < |items| :: NoInvalid(items[i])
    case Object(members, _) => forall i | 0 <= i < |members| :: NoInvalid(members[i].value)
    case _ => true
  }

  /** How many arrays and objects enclose the innermost value, itself included. */
  function Depth(j: Json): nat {
    match j
    case Array(items) => 1 + DeepestItem(items)
    case Object(members, _) => 1 + DeepestMember(members)
    case _ => 0
  }

  function DeepestItem(items: seq<Json>): (d: nat)
    ensures forall i | 0 <= i < |items| :: Depth(items[i]) <= d
  {
    if items == [] then 0
    else
      var h, t := Depth(items[0]), DeepestItem(items[1..]);
      assert forall i | 0 < i < |items| :: items[i] == items[1..][i-1];
      if h > t then h else t
  }

  function DeepestMember(ms: seq<Member>): (d: nat)
    ensures forall i | 0 <= i < |ms| :: Depth(ms[i].value) <= d
  {
    if ms == [] then 0
    else
      var h, t := Depth(ms[0].value), DeepestMember(ms[1..]);
      assert forall i | 0 < i < |ms| :: ms[i] == ms[1..][i-1];
      if h > t then h else t
  }

  lemma {:induction false} DeepestItemIsLeast(items: seq<Json>, bound: nat)
    requires forall i | 0 <= i < |items| :: Depth(items[i]) <= bound
    ensures DeepestItem(items) <= bound
  {
    if items != [] {
      DeepestItemIsLeast(items[1..], bound);
    }
  }

  lemma {:induction false} DeepestMemberIsLeast(ms: seq<Member>, bound: nat)
    requires forall i | 0 <= i < |ms| :: Depth(ms[i].value) <= bound
    ensures DeepestMember(ms) <= bound
  {
    if ms != [] {
      DeepestMemberIsLeast(ms[1..], bound);
    }
  }

  /** What `cJSON_Duplicate` makes of a tree: the same, with every list appended to from the start. */
  function Fresh(j: Json): Json {
    match j
    case Array(items) => Array(seq(|items|, i requires 0 <= i < |items| => Fresh(items[i])))
    case Object(members, _) => Object(FreshMembers(members))
    case _ => j
  }

  function FreshMembers(ms: seq<Member>): (r: seq<Member>)
    ensures |r| == |ms|
    ensures forall i | 0 <= i < |ms| :: r[i] == Entry(ms[i].key, Fresh(ms[i].value))
  {
    seq(|ms|, i requires 0 <= i < |ms| => Entry(ms[i].key, Fresh(ms[i].value)))
  }

  /** Appending to any object in the tree arrives at its end. */
  ghost predicate Appendable(j: Json) {
    match j
    case Array(items) => forall i | 0 <= i < |items| :: Appendable(items[i])
    case Object(members, tail) => tail.Last? && forall i | 0 <= i < |members| :: Appendable(members[i].value)
    case _ => true
  }

  /** Members of the same names and meanings, one by one, mean the same object. */
  lemma {:induction false} SameMap(s: seq<Member>, t: seq<Member>)
    requires |s| == |t| && forall i | 0 <= i < |s| :: s[i].key == t[i].key && Denote(s[i].value) == Denote(t[i].value)
    ensures ToMap(s) == ToMap(t)
  {
    if s != [] {
      assert forall i | 0 <= i < |s| - 1 :: s[1..][i] == s[i+1] && t[1..][i] == t[i+1];
      SameMap(s[1..], t[1..]);
    }
  }

  /** A duplicate means the same. */
  lemma {:induction false} FreshMeans(j: Json)
    ensures Denote(Fresh(j)) == Denote(j) && (Unique(j) ==> Unique(Fresh(j))) && Appendable(Fresh(j))
  {
    match j
    case Array(items) =>
      forall i | 0 <= i < |items|
        ensures Denote(Fresh(items[i])) == Denote(items[i]) && (Unique(items[i]) ==> Unique(Fresh(items[i])))
        ensures Appendable(Fresh(items[i]))
      {
        FreshMeans(items[i]);
      }
      assert Denote(Fresh(j)).items == Denote(j).items;
    case Object(members, _) =>
      forall i | 0 <= i < |members|
        ensures Denote(Fresh(members[i].value)) == Denote(members[i].value) && Appendable(Fresh(members[i].value))
        ensures Unique(members[i].value) ==> Unique(Fresh(members[i].value))
      {
        FreshMeans(members[i].value);
      }
      SameMap(FreshMembers(members), members);
    case _ =>
  }

  /** Duplicating a duplicate, or any tree that can be appended to everywhere, changes nothing. */
  lemma {:induction false} FreshKeeps(j: Json)
    requires Appendable(j)
    ensures Fresh(j) == j
  {
    match j
    case Array(items) =>
      forall i | 0 <= i < |items|
        ensures Fresh(items[i]) == items[i]
      {
        FreshKeeps(items[i]);
      }
    case Object(members, _) =>
      forall i | 0 <= i < |members|
        ensures FreshMembers(members)[i] == members[i]
      {
        FreshKeeps(members[i].value);
      }
    case _ =>
  }

  lemma FreshTwice(j: Json)
    ensures Fresh(Fresh(j)) == Fresh(j)
  {
    FreshMeans(j);
    FreshKeeps(Fresh(j));
  }

  /** `get_object_item`: the index of the first member of that name, or the length. */
  function FindKey<V>(ms: seq<Entry<V>>, name: Text, caseSensitive: bool): (i: nat)
    ensures i <= |ms|
    ensures forall j | 0 <= j < i :: CompareStrings(name, ms[j].key, caseSensitive) != 0
    ensures i < |ms| ==> CompareStrings(name, ms[i].key, caseSensitive) == 0
  {
    if ms == [] then 0
    else if CompareStrings(name, ms[0].key, caseSensitive) == 0 then 0
    else 1 + FindKey(ms[1..], name, caseSensitive)
  }

  function RemoveAt<T>(s: seq<T>, i: nat): (r: seq<T>)
    requires i < |s|
    ensures |r| == |s| - 1
    ensures forall j | 0 <= j < |r| :: r[j] == if j < i then s[j] else s[j+1]
  {
    s[..i] + s[i+1..]
  }

  lemma FindKeyExact<V>(ms: seq<Entry<V>>, i: nat)
    requires Distinct(ms) && i < |ms|
    ensures FindKey(ms, ms[i].key, true) == i
  {
    var k := FindKey(ms, ms[i].key, true);
    StrcmpZero(ms[i].key, ms[i].key);
    if k < |ms| {
      StrcmpZero(ms[i].key, ms[k].key);
    }
  }

  lemma FindKeyAbsent<V>(ms: seq<Entry<V>>, name: Text)
    ensures FindKey(ms, name, true) == |ms| <==> forall i | 0 <= i < |ms| :: ms[i].key != name
  {
    forall i | 0 <= i < |ms|
      ensures CompareStrings(name, ms[i].key, true) == 0 <==> ms[i].key == name
    {
      StrcmpZero(name, ms[i].key);
    }
    var k := FindKey(ms, name, true);
  }

  /** The map of a member list, read entry by entry. */
  lemma {:induction false} MapOf(ms: seq<Member>)
    requires Distinct(ms)
    ensures forall i | 0 <= i < |ms| :: ms[i].key in ToMap(ms) && ToMap(ms)[ms[i].key] == Denote(ms[i].value)
    ensures forall k | k in ToMap(ms) :: exists i :: 0 <= i < |ms| && ms[i].key == k
  {
    if ms != [] {
      var rest := ms[1..];
      MapOf(rest);
      forall i | 0 <= i < |ms|
        ensures ms[i].key in ToMap(ms) && ToMap(ms)[ms[i].key] == Denote(ms[i].value)
      {
        if i > 0 {
          assert ms[i] == rest[i-1];
        }
      }
      forall k | k in ToMap(ms)
        ensures exists i :: 0 <= i < |ms| && ms[i].key == k
      {
        if k == ms[0].key {
        } else {
          var i :| 0 <= i < |rest| && rest[i].key == k;
          assert ms[i+1].key == k;
        }
      }
    }
  }

  /** A distinct member list means m as soon as both hold the same bindings. */
  lemma MapIs(ms: seq<Member>, m: map<Text, Value>)
    requires Distinct(ms)
    requires forall i | 0 <= i < |ms| :: ms[i].key in m && m[ms[i].key] == Denote(ms[i].value)
    requires forall k | k in m :: exists i :: 0 <= i < |ms| && ms[i].key == k
    ensures ToMap(ms) == m
  {
    MapOf(ms);
    forall k | k in m
      ensures k in ToMap(ms) && ToMap(ms)[k] == m[k]
    {
      var i :| 0 <= i < |ms| && ms[i].key == k;
    }
    assert ToMap(ms).Keys == m.Keys;
  }

  lemma LookupMap(ms: seq<Member>, name: Text)
    requires Distinct(ms)
    ensures var i := FindKey(ms, name, true);
      if i < |ms| then ms[i].key == name && name in ToMap(ms) && ToMap(ms)[name] == Denote(ms[i].value)
      else name !in ToMap(ms)
  {
    MapOf(ms);
    FindKeyAbsent(ms, name);
    var i := FindKey(ms, name, true);
    if i < |ms| {
      StrcmpZero(name, ms[i].key);
    }
  }

  /** Order does not matter. */
  lemma PermutedMap(s: seq<Member>, t: seq<Member>)
    requires Distinct(s) && multiset(s) == multiset(t)
    ensures Distinct(t) && ToMap(s) == ToMap(t)
  {
    DistinctPermutation(s, t);
    MapOf(s);
    forall i | 0 <= i < |t|
      ensures t[i].key in ToMap(s) && ToMap(s)[t[i].key] == Denote(t[i].value)
    {
      SameElements(s, t, t[i]);
    }
    forall k | k in ToMap(s)
      ensures exists i :: 0 <= i < |t| && t[i].key == k
    {
      var i :| 0 <= i < |s| && s[i].key == k;
      SameElements(s, t, s[i]);
      var j :| 0 <= j < |t| && t[j] == s[i];
      assert t[j].key == k;
    }
    MapIs(t, ToMap(s));
  }

  lemma RemovedUnique(ms: seq<Member>, i: nat)
    requires UniqueMembers(ms) && i < |ms|
    ensures UniqueMembers(RemoveAt(ms, i))
  {
    hide Unique;
    var r := RemoveAt(ms, i);
    forall j | 0 <= j < |r|
      ensures Unique(r[j].value)
    {
      assert r[j] == ms[if j < i then j else j + 1];
    }
  }

  lemma RemovedMap(ms: seq<Member>, i: nat)
    requires UniqueMembers(ms) && i < |ms|
    ensures UniqueMembers(RemoveAt(ms, i)) && ToMap(RemoveAt(ms, i)) == ToMap(ms) - {ms[i].key}
  {
    hide ToMap, Denote, UniqueMembers, RemoveAt, Distinct;
    var r := RemoveAt(ms, i);
    RemovedUnique(ms, i);
    DistinctNames(ms);
    DistinctNames(r);
    forall j | 0 <= j < |r|
      ensures r[j].key in ToMap(ms) - {ms[i].key} && (ToMap(ms) - {ms[i].key})[r[j].key] == Denote(r[j].value)
    {
      KeptMember(ms, i, j);
    }
    forall k | k in ToMap(ms) - {ms[i].key}
      ensures exists j :: 0 <= j < |r| && r[j].key == k
    {
      var j := NameKept(ms, i, k);
      assert r[j].key == k;
    }
    MapIs(r, ToMap(ms) - {ms[i].key});
  }

  lemma KeptMember(ms: seq<Member>, i: nat, j: nat)
    requires Distinct(ms) && i < |ms| && j < |ms| - 1
    ensures var m := RemoveAt(ms, i)[j]; m.key != ms[i].key && m.key in ToMap(ms) && ToMap(ms)[m.key] == Denote(m.value)
  {
    hide ToMap, Denote;
    MapOf(ms);
    var k := if j < i then j else j + 1;
    assert RemoveAt(ms, i)[j] == ms[k];
  }

  lemma NameKept(ms: seq<Member>, i: nat, k: Text) returns (j: nat)
    requires Distinct(ms) && i < |ms| && k in ToMap(ms) && k != ms[i].key
    ensures j < |ms| - 1 && RemoveAt(ms, i)[j].key == k
  {
    hide ToMap, Denote;
    MapOf(ms);
    var at :| 0 <= at < |ms| && ms[at].key == k;
    j := if at < i then at else at - 1;
  }

  lemma DistinctNames(ms: seq<Member>)
    requires UniqueMembers(ms)
    ensures Distinct(ms)
  {}

  /** An object and its member list. */
  lemma ObjectMeans(j: Json)
    requires j.Object?
    ensures Denote(j) == VObject(ToMap(j.members)) && (Unique(j) <==> UniqueMembers(j.members))
  {}

  lemma AppendedMap(ms: seq<Member>, m: Member)
    requires UniqueMembers(ms) && m.key !in ToMap(ms) && Unique(m.value)
    ensures UniqueMembers(ms + [m]) && ToMap(ms + [m]) == ToMap(ms)[m.key := Denote(m.value)]
  {
    hide ToMap, Denote, Unique;
    var r := ms + [m];
    MapOf(ms);
    var want := ToMap(ms)[m.key := Denote(m.value)];
    forall k | k in want
      ensures exists j :: 0 <= j < |r| && r[j].key == k
    {
      if k == m.key {
        assert r[|ms|].key == k;
      } else {
        var j :| 0 <= j < |ms| && ms[j].key == k;
        assert r[j].key == k;
      }
    }
    MapIs(r, want);
  }

  lemma UpdatedMap(ms: seq<Member>, i: nat, v: Json)
    requires UniqueMembers(ms) && i < |ms| && Unique(v)
    ensures UniqueMembers(ms[i := ms[i].(value := v)])
    ensures ToMap(ms[i := ms[i].(value := v)]) == ToMap(ms)[ms[i].key := Denote(v)]
  {
    hide ToMap, Denote, Unique;
    var r := ms[i := ms[i].(value := v)];
    MapOf(ms);
    var want := ToMap(ms)[ms[i].key := Denote(v)];
    forall k | k in want
      ensures exists j :: 0 <= j < |r| && r[j].key == k
    {
      var j :| 0 <= j < |ms| && ms[j].key == k;
      assert r[j].key == k;
    }
    MapIs(r, want);
  }

  /** Sorting the members of an object, as `sort_object` does, does not change what it means. */
  lemma SortedMap(ms: seq<Member>, caseSensitive: bool)
    requires UniqueMembers(ms)
    ensures UniqueMembers(MergeSort(ms, caseSensitive)) && ToMap(MergeSort(ms, caseSensitive)) == ToMap(ms)
  {
    var s := MergeSort(ms, caseSensitive);
    SortPermutes(ms, caseSensitive);
    PermutedMap(ms, s);
    forall i | 0 <= i < |s|
      ensures Unique(s[i].value)
    {
      SameElements(ms, s, s[i]);
    }
  }
}
