/** JSON Patch as the library generates and applies it (RFC 6902). */
module Patch {
  import opened Basics
  import opened Strings
  import opened Sorting
  import opened Tails
  import opened Json
  import opened Compare
  import opened Pointer

  const OP: Text := [111, 112]
  const PATH: Text := [112, 97, 116, 104]
  const VALUE: Text := [118, 97, 108, 117, 101]
  const FROM: Text := [102, 114, 111, 109]
  const ADD: Text := [97, 100, 100]
  const REMOVE: Text := [114, 101, 109, 111, 118, 101]
  const REPLACE: Text := [114, 101, 112, 108, 97, 99, 101]
  const MOVE: Text := [109, 111, 118, 101]
  const COPY: Text := [99, 111, 112, 121]
  const TEST: Text := [116, 101, 115, 116]
  const DASH: Text := [45]

  datatype Operation = INVALID_OP | ADD_OP | REMOVE_OP | REPLACE_OP | MOVE_OP | COPY_OP | TEST_OP

  function GetItem(j: Json, name: Text, caseSensitive: bool): Option<Json> {
    if !j.Object? then None
    else
      var i := FindKey(j.members, name, caseSensitive);
      if i < |j.members| then Some(j.members[i].value) else None
  }

  function DecodeOperation(patch: Json, caseSensitive: bool): Operation {
    match GetItem(patch, OP, caseSensitive)
    case Some(String(s)) =>
      if s == ADD then ADD_OP
      else if s == REMOVE then REMOVE_OP
      else if s == REPLACE then REPLACE_OP
      else if s == MOVE then MOVE_OP
      else if s == COPY then COPY_OP
      else if s == TEST then TEST_OP
      else INVALID_OP
    case _ => INVALID_OP
  }

  /** `strrchr(p, '/')`. */
  function LastSlash(p: Text): (r: Option<nat>)
    ensures r.Some? ==> r.value < |p| && p[r.value] == SLASH
  {
    if p == [] then None
    else if p[|p|-1] == SLASH then Some(|p| - 1)
    else LastSlash(p[..|p|-1])
  }

  function RemoveChild(j: Json, i: nat): Json
    requires i < Width(j)
  {
    match j
    case Array(items) => Array(RemoveAt(items, i))
    case Object(members, tail) => Object(RemoveAt(members, i), RemoveTail(|members|, tail, i))
  }

  /** Which child of the parent `detach_path` unlinks; in an object always by case-insensitive lookup. */
  function ChildToDetach(parent: Json, name: Text): (r: Option<nat>)
    ensures r.Some? ==> r.value < Width(parent)
  {
    match parent
    case Array(items) =>
      var index := DecodeIndex(name);
      if index.Some? && index.value < |items| then index else None
    case Object(members, _) =>
      var i := FindKey(members, name, false);
      if i < |members| then Some(i) else None
    case _ => None
  }

  datatype Detached = NotFound | Detached(item: Json, root: Json)

  /** `detach_path`: the path is split at its last slash. */
  function DetachPath(root: Json, path: Text, caseSensitive: bool): Detached {
    var slash := LastSlash(path);
    if slash.None? then NotFound
    else DetachFrom(root, path[..slash.value], path[slash.value+1..], caseSensitive)
  }

  function DetachFrom(root: Json, parentPath: Text, name: Text, caseSensitive: bool): Detached {
    var at := Resolve(root, parentPath, caseSensitive);
    if at.None? then NotFound
    else
      var parent := NodeAt(root, at.value);
      var i := ChildToDetach(parent, DecodeInPlace(name));
      if i.None? then NotFound
      else Detached(Child(parent, i.value), ReplaceNode(root, at.value, RemoveChild(parent, i.value)))
  }

  /** The status and the tree after a patch. A fault is a call with a NULL string, or an append through a node that is
   no longer in the list: nothing is said of what those do. */
  datatype Applied = Fault | Applied(status: int, root: Json)

  /** `add_item_to_array` for an object: what the list becomes depends on where its tail is. */
  function LinkMember(members: seq<Member>, tail: Tail, m: Member): Applied {
    if members != [] && tail.Dangling? then Fault
    else Applied(0, Object(Append(members, tail, m), AppendTail(members, tail)))
  }

  /** The last part of `apply_patch`: link a value in below an existing parent. */
  function AddBelow(parent: Json, name: Text, value: Json, caseSensitive: bool): Applied {
    match parent
    case Array(items) =>
      if name == DASH then Applied(0, Array(items + [value]))
      else
        var index := DecodeIndex(name);
        if index.None? then Applied(11, parent)
        else if index.value > |items| then Applied(10, parent)
        else Applied(0, Array(items[..index.value] + [value] + items[index.value..]))
    case Object(members, tail) =>
      var i := FindKey(members, name, caseSensitive);
      if i < |members| then LinkMember(RemoveAt(members, i), RemoveTail(|members|, tail, i), Entry(name, value))
      else LinkMember(members, tail, Entry(name, value))
    case _ => Applied(9, parent)
  }

  function AddAt(root: Json, path: Text, value: Json, caseSensitive: bool): Applied {
    var slash := LastSlash(path);
    if slash.None? then Applied(9, root)
    else AddFrom(root, path[..slash.value], path[slash.value+1..], value, caseSensitive)
  }

  function AddFrom(root: Json, parentPath: Text, name: Text, value: Json, caseSensitive: bool): Applied {
    var at := Resolve(root, parentPath, caseSensitive);
    if at.None? then Applied(9, root)
    else
      var r := AddBelow(NodeAt(root, at.value), DecodeInPlace(name), value, caseSensitive);
      if r.Fault? then Fault
      else if r.status != 0 then Applied(r.status, root)
      else Applied(0, ReplaceNode(root, at.value, r.root))
  }

  /** The `test` operation: the compared subtree is left sorted. */
  function TestAt(root: Json, path: Text, value: Option<Json>, caseSensitive: bool): Applied {
    var at := Resolve(root, path, caseSensitive);
    if at.None? || value.None? then Applied(1, root)
    else
      var r := CompareJson(NodeAt(root, at.value), value.value, caseSensitive);
      Applied(if r.same then 0 else 1, ReplaceNode(root, at.value, r.a))
  }

  function MoveOrCopy(root: Json, path: Text, patch: Json, isMove: bool, caseSensitive: bool): Applied {
    var from := GetItem(patch, FROM, caseSensitive);
    if from.None? then Applied(4, root)
    else if !from.value.String? then if isMove then Fault else Applied(5, root)
    else if isMove then
      match DetachPath(root, from.value.s, caseSensitive)
      case NotFound => Applied(5, root)
      case Detached(item, rest) => AddAt(rest, path, item, caseSensitive)
    else
      var at := Resolve(root, from.value.s, caseSensitive);
      if at.None? then Applied(5, root) else AddAt(root, path, Fresh(NodeAt(root, at.value)), caseSensitive)
  }

  /** `apply_patch`. */
  function ApplyPatch(root: Json, patch: Json, caseSensitive: bool): Applied {
    match GetItem(patch, PATH, caseSensitive)
    case Some(String(path)) =>
      var op := DecodeOperation(patch, caseSensitive);
      var value := GetItem(patch, VALUE, caseSensitive);
      if op == INVALID_OP then Applied(3, root)
      else if op == TEST_OP then TestAt(root, path, value, caseSensitive)
      else if path == [] && op == REMOVE_OP then Applied(0, Invalid)
      else if path == [] && (op == REPLACE_OP || op == ADD_OP) then
        if value.None? then Applied(7, root) else Applied(0, Fresh(value.value))
      else if op == REMOVE_OP || op == REPLACE_OP then
        match DetachPath(root, path, caseSensitive)
        case NotFound => Applied(13, root)
        case Detached(_, rest) =>
          if op == REMOVE_OP then Applied(0, rest)
          else if value.None? then Applied(7, rest)
          else AddAt(rest, path, Fresh(value.value), caseSensitive)
      else if op == MOVE_OP || op == COPY_OP then MoveOrCopy(root, path, patch, op == MOVE_OP, caseSensitive)
      else if value.None? then Applied(7, root)
      else AddAt(root, path, Fresh(value.value), caseSensitive)
    case _ => Applied(2, root)
  }

  /** `cJSONUtils_ApplyPatches`: one patch after the other, up to the first that fails. */
  function ApplyPatches(root: Json, patches: Json, caseSensitive: bool): Applied {
    if !patches.Array? then Applied(1, root) else ApplyAll(root, patches.items, caseSensitive)
  }

  function ApplyAll(root: Json, patches: seq<Json>, caseSensitive: bool): Applied
    decreases |patches|
  {
    if patches == [] then Applied(0, root)
    else
      var r := ApplyPatch(root, patches[0], caseSensitive);
      if r.Fault? || r.status != 0 then r else ApplyAll(r.root, patches[1..], caseSensitive)
  }

  /** The arguments of one call to `compose_patch`. */
  datatype Edit = Edit(op: Text, path: Text, value: Option<Json>)

  /** `compose_patch`: the object it appends to the patches. */
  function Compose(e: Edit): Json {
    Object([Entry(OP, String(e.op)), Entry(PATH, String(e.path))]
           + if e.value.Some? then [Entry(VALUE, Fresh(e.value.value))] else [])
  }

  predicate SameType(a: Json, b: Json) {
    match (a, b)
    case (Number(_), Number(_)) => true
    case (String(_), String(_)) => true
    case (Array(_), Array(_)) => true
    case (Object(_, _), Object(_, _)) => true
    case _ => (a.Invalid? && b.Invalid?) || (a.False? && b.False?) || (a.True? && b.True?) || (a.Null? && b.Null?)
  }

  /** `create_patches`: the patches that turn `from` into `to`, both found at `path`. */
  function CreateEdits(path: Text, from: Json, to: Json, caseSensitive: bool): seq<Edit>
    decreases from, 1, 0
  {
    if !SameType(from, to) then [Edit(REPLACE, path, Some(to))]
    else
      match from
      case Number(n) => if n != to.n then [Edit(REPLACE, path, Some(to))] else []
      case String(s) => if s != to.s then [Edit(REPLACE, path, Some(to))] else []
      case Array(s) => ItemEdits(path, s, to.items, 0, caseSensitive)
      case Object(s, _) =>
        SortPermutes(s, caseSensitive);
        var x, y := MergeSort(s, caseSensitive), MergeSort(to.members, caseSensitive);
        assert forall m | m in x :: m.value < from by {
          forall m | m in x
            ensures m.value < from
          {
            SameElements(s, x, m);
          }
        }
        MemberEdits(from, path, x, y, caseSensitive)
      case _ => []
  }

  /** Elements present on both sides, then removals at one and the same index, then additions at the end. */
  function ItemEdits(path: Text, s: seq<Json>, t: seq<Json>, index: nat, caseSensitive: bool): seq<Edit>
    decreases s, 0, |s| + |t|
  {
    if s != [] && t != [] then
      CreateEdits(path + [SLASH] + Digits(index), s[0], t[0], caseSensitive)
      + ItemEdits(path, s[1..], t[1..], index + 1, caseSensitive)
    else if s != [] then
      [Edit(REMOVE, path + [SLASH] + Encode(Digits(index)), None)] + ItemEdits(path, s[1..], [], index, caseSensitive)
    else if t != [] then
      [Edit(ADD, path + [SLASH] + Encode(DASH), Some(t[0]))] + ItemEdits(path, [], t[1..], index + 1, caseSensitive)
    else []
  }

  /** Which of the two sorted lists the next patch concerns: below zero the first, above zero the second, zero both. */
  function Turn(x: seq<Member>, y: seq<Member>, caseSensitive: bool): (diff: int)
    requires x != [] || y != []
    ensures (diff <= 0 ==> x != []) && (diff >= 0 ==> y != [])
  {
    if x == [] then 1 else if y == [] then -1 else CompareStrings(x[0].key, y[0].key, caseSensitive)
  }

  function MemberEdits(ghost whole: Json, path: Text, x: seq<Member>, y: seq<Member>, caseSensitive: bool): seq<Edit>
    requires forall m | m in x :: m.value < whole
    decreases whole, 0, |x| + |y|, 1
  {
    if x == [] && y == [] then []
    else
      var diff := Turn(x, y, caseSensitive);
      HeadEdits(whole, path, x, y, diff, caseSensitive)
      + MemberEdits(whole, path, if diff <= 0 then x[1..] else x, if diff >= 0 then y[1..] else y, caseSensitive)
  }

  function HeadEdits(ghost whole: Json, path: Text, x: seq<Member>, y: seq<Member>, diff: int,
      caseSensitive: bool): seq<Edit>
    requires forall m | m in x :: m.value < whole
    requires (diff <= 0 ==> x != []) && (diff >= 0 ==> y != [])
    decreases whole, 0, |x| + |y|, 0
  {
    if diff == 0 then CreateEdits(path + [SLASH] + Encode(x[0].key), x[0].value, y[0].value, caseSensitive)
    else if diff < 0 then [Edit(REMOVE, path + [SLASH] + Encode(x[0].key), None)]
    else [Edit(ADD, path + [SLASH] + Encode(y[0].key), Some(y[0].value))]
  }

  function ComposeAll(edits: seq<Edit>): seq<Json> {
    seq(|edits|, i requires 0 <= i < |edits| => Compose(edits[i]))
  }

  /** `cJSONUtils_GeneratePatches`. */
  function GeneratePatches(from: Json, to: Json, caseSensitive: bool): Json {
    Array(ComposeAll(CreateEdits([], from, to, caseSensitive)))
  }
}
