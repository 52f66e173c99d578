/** Generating and applying patches as it runs: a growing list of patches, a document changed in place. */
module PatchLoops {
  import opened Basics
  import opened Strings
  import opened Sorting
  import opened Tails
  import opened Json
  import opened CompareProofs
  import opened Folding
  import opened CompareLoops
  import opened Pointer
  import opened PointerLoops
  import opened Patch
  import M = PatchMeaning

  lemma ComposeConcat(a: seq<Edit>, b: seq<Edit>)
    ensures ComposeAll(a + b) == ComposeAll(a) + ComposeAll(b)
  {}

  /** The array that `create_patches` appends to. */
  class PatchArray {
    var items: seq<Json>

    constructor ()
      ensures items == []
    {
      items := [];
    }

    /** `compose_patch`. */
    method ComposePatch(op: Text, path: Text, suffix: Option<Text>, value: Option<Json>)
      modifies this
      ensures items == old(items) +
        [Compose(Edit(op, if suffix.None? then path else path + [SLASH] + Encode(suffix.value), value))]
    {
      var members := [Entry(OP, String(op))];
      if suffix.None? {
        members := members + [Entry(PATH, String(path))];
      } else {
        members := members + [Entry(PATH, String(path + [SLASH] + Encode(suffix.value)))];
      }
      if value.Some? {
        members := members + [Entry(VALUE, Fresh(value.value))];
      }
      assert members ==
        Compose(Edit(op, if suffix.None? then path else path + [SLASH] + Encode(suffix.value), value)).members;
      items := items + [Object(members)];
    }

    /** `create_patches`; both trees come back with the objects it visited sorted, and not always fit to be appended to.
     */
    method CreatePatches(path: Text, from: Json, to: Json, caseSensitive: bool) returns (from': Json, to': Json)
      modifies this
      ensures items == old(items) + ComposeAll(CreateEdits(path, from, to, caseSensitive))
      ensures Reordered(from, from') && Reordered(to, to')
      ensures from.Object? && to.Object? ==>
        from'.Object? && from'.tail == SortTail(from.members, from.tail, caseSensitive)
      decreases Depth(from), 1
    {
      from', to' := from, to;
      if !SameType(from, to) {
        ComposePatch(REPLACE, path, None, Some(to));
        return;
      }
      match from {
        case Number(n) =>
          if n != to.n {
            ComposePatch(REPLACE, path, None, Some(to));
          }
        case String(s) =>
          if s != to.s {
            ComposePatch(REPLACE, path, None, Some(to));
          }
        case Array(s) =>
          var x, y := CreateItemPatches(path, s, to.items, caseSensitive);
          from', to' := Array(x), Array(y);
          ReorderedArray(s, x);
          ReorderedArray(to.items, y);
        case Object(s, tail) =>
          var x, y := MergeSort(s, caseSensitive), MergeSort(to.members, caseSensitive);
          SortPermutes(s, caseSensitive);
          SortPermutes(to.members, caseSensitive);
          forall m | m in x
            ensures m.value < from && Depth(m.value) < Depth(from)
          {
            SameElements(s, x, m);
          }
          var x', y' := CreateMemberPatches(from, path, x, y, caseSensitive);
          from', to' := Object(x', SortTail(s, tail, caseSensitive)),
            Object(y', SortTail(to.members, to.tail, caseSensitive));
          ReorderedObject(s, x, x');
          ReorderedObject(to.members, y, y');
        case _ =>
      }
    }

    method CreateItemPatches(path: Text, s: seq<Json>, t: seq<Json>, caseSensitive: bool)
      returns (s': seq<Json>, t': seq<Json>)
      modifies this
      ensures items == old(items) + ComposeAll(ItemEdits(path, s, t, 0, caseSensitive))
      ensures ReorderedItems(s, s') && ReorderedItems(t, t')
      decreases 1 + DeepestItem(s), 0
    {
      hide CreateEdits, ItemEdits, ComposeAll, Digits, Reordered;
      var a, b, index := s, t, 0;
      s', t' := [], [];
      ghost var s0: seq<Json>, t0: seq<Json> := [], [];
      while a != [] && b != []
        invariant s == s0 + a && t == t0 + b
        invariant ReorderedItems(s0, s') && ReorderedItems(t0, t')
        invariant items + ComposeAll(ItemEdits(path, a, b, index, caseSensitive))
          == old(items) + ComposeAll(ItemEdits(path, s, t, 0, caseSensitive))
        decreases |a|
      {
        ItemEditsStep(path, a, b, index, caseSensitive);
        assert a[0] == s[|s0|];
        var x, y := CreatePatches(path + [SLASH] + Digits(index), a[0], b[0], caseSensitive);
        s0, t0 := s0 + [a[0]], t0 + [b[0]];
        s', t' := s' + [x], t' + [y];
        a, b, index := a[1..], b[1..], index + 1;
      }
      s', t' := s' + a, t' + b;
      StillReordered(s0, s'[..|s0|], a);
      StillReordered(t0, t'[..|t0|], b);
      RemoveLeftovers(path, a, index);
      AppendNew(path, b);
      ItemEditsEnd(path, a, b, index, caseSensitive);
      ComposeConcat(seq(|a|, _ => Edit(REMOVE, path + [SLASH] + Encode(Digits(index)), None)),
                    seq(|b|, i requires 0 <= i < |b| => Edit(ADD, path + [SLASH] + Encode(DASH), Some(b[i]))));
    }

    /** Every removal names the same index, as each one moves the next element there. */
    method RemoveLeftovers(path: Text, a: seq<Json>, index: nat)
      modifies this
      ensures items ==
        old(items) + ComposeAll(seq(|a|, _ => Edit(REMOVE, path + [SLASH] + Encode(Digits(index)), None)))
    {
      ghost var e := Edit(REMOVE, path + [SLASH] + Encode(Digits(index)), None);
      var i := 0;
      while i < |a|
        invariant i <= |a| && items == old(items) + ComposeAll(seq(i, _ => e))
      {
        ComposePatch(REMOVE, path, Some(Digits(index)), None);
        i := i + 1;
        assert ComposeAll(seq(i, _ => e)) == ComposeAll(seq(i - 1, _ => e)) + [Compose(e)];
      }
    }

    method AppendNew(path: Text, b: seq<Json>)
      modifies this
      ensures items == old(items) +
        ComposeAll(seq(|b|, i requires 0 <= i < |b| => Edit(ADD, path + [SLASH] + Encode(DASH), Some(b[i]))))
    {
      var i := 0;
      while i < |b|
        invariant i <= |b|
        invariant items ==
          old(items) + ComposeAll(seq(i, k requires 0 <= k < i => Edit(ADD, path + [SLASH] + Encode(DASH), Some(b[k]))))
      {
        ghost var before := seq(i, k requires 0 <= k < i => Edit(ADD, path + [SLASH] + Encode(DASH), Some(b[k])));
        ComposePatch(ADD, path, Some(DASH), Some(b[i]));
        i := i + 1;
        ghost var after := seq(i, k requires 0 <= k < i => Edit(ADD, path + [SLASH] + Encode(DASH), Some(b[k])));
        assert after == before + [Edit(ADD, path + [SLASH] + Encode(DASH), Some(b[i-1]))];
        ComposeConcat(before, [Edit(ADD, path + [SLASH] + Encode(DASH), Some(b[i-1]))]);
      }
    }

    method CreateMemberPatches(ghost whole: Json, path: Text, x: seq<Member>, y: seq<Member>, caseSensitive: bool)
      returns (x': seq<Member>, y': seq<Member>)
      requires forall m | m in x :: m.value < whole && Depth(m.value) < Depth(whole)
      modifies this
      ensures items == old(items) + ComposeAll(MemberEdits(whole, path, x, y, caseSensitive))
      ensures ReorderedMembers(x, x') && ReorderedMembers(y, y')
      decreases Depth(whole), 0, 1
    {
      hide CreateEdits, HeadEdits, MemberEdits, ComposeAll, Compose, Encode, Reordered, CompareStrings, Depth;
      var a, b := x, y;
      x', y' := [], [];
      ghost var x0: seq<Member>, y0: seq<Member> := [], [];
      MemberEditsEnd(whole, path, caseSensitive);
      while a != [] || b != []
        invariant x == x0 + a && y == y0 + b
        invariant ReorderedMembers(x0, x') && ReorderedMembers(y0, y')
        invariant items + ComposeAll(MemberEdits(whole, path, a, b, caseSensitive))
          == old(items) + ComposeAll(MemberEdits(whole, path, x, y, caseSensitive))
        decreases |a| + |b|
      {
        var diff := Turn(a, b, caseSensitive);
        MemberEditsStep(whole, path, a, b, caseSensitive);
        var f, t := CreateHeadPatch(whole, path, a, b, diff, caseSensitive);
        if diff <= 0 {
          x', x0, a := x' + [f], x0 + [a[0]], a[1..];
        }
        if diff >= 0 {
          y', y0, b := y' + [t], y0 + [b[0]], b[1..];
        }
      }
    }

    /** The body of the member loop. */
    method CreateHeadPatch(ghost whole: Json, path: Text, a: seq<Member>, b: seq<Member>, diff: int,
        caseSensitive: bool)
      returns (f: Member, t: Member)
      requires forall m | m in a :: m.value < whole && Depth(m.value) < Depth(whole)
      requires (diff <= 0 ==> a != []) && (diff >= 0 ==> b != [])
      modifies this
      ensures items == old(items) + ComposeAll(HeadEdits(whole, path, a, b, diff, caseSensitive))
      ensures diff <= 0 ==> f.key == a[0].key && Reordered(a[0].value, f.value)
      ensures diff >= 0 ==> t.key == b[0].key && Reordered(b[0].value, t.value)
      decreases Depth(whole), 0, 0
    {
      f, t := if diff <= 0 then a[0] else b[0], if diff >= 0 then b[0] else a[0];
      if diff == 0 {
        var x, y := CreatePatches(path + [SLASH] + Encode(a[0].key), a[0].value, b[0].value, caseSensitive);
        f, t := f.(value := x), t.(value := y);
      } else if diff < 0 {
        ComposePatch(REMOVE, path, Some(a[0].key), None);
      } else {
        ComposePatch(ADD, path, Some(b[0].key), Some(b[0].value));
      }
    }
  }

  lemma ItemEditsStep(path: Text, a: seq<Json>, b: seq<Json>, index: nat, caseSensitive: bool)
    requires a != [] && b != []
    ensures ComposeAll(ItemEdits(path, a, b, index, caseSensitive))
      == ComposeAll(CreateEdits(path + [SLASH] + Digits(index), a[0], b[0], caseSensitive))
       + ComposeAll(ItemEdits(path, a[1..], b[1..], index + 1, caseSensitive))
  {
    ComposeConcat(CreateEdits(path + [SLASH] + Digits(index), a[0], b[0], caseSensitive),
                  ItemEdits(path, a[1..], b[1..], index + 1, caseSensitive));
  }

  lemma MemberEditsEnd(whole: Json, path: Text, caseSensitive: bool)
    ensures ComposeAll(MemberEdits(whole, path, [], [], caseSensitive)) == []
  {}

  lemma MemberEditsStep(whole: Json, path: Text, a: seq<Member>, b: seq<Member>, caseSensitive: bool)
    requires forall m | m in a :: m.value < whole
    requires a != [] || b != []
    ensures var diff := Turn(a, b, caseSensitive);
      ComposeAll(MemberEdits(whole, path, a, b, caseSensitive))
      == ComposeAll(HeadEdits(whole, path, a, b, diff, caseSensitive))
       + ComposeAll(MemberEdits(whole, path, if diff <= 0 then a[1..] else a, if diff >= 0 then b[1..]
         else b, caseSensitive))
  {
    hide HeadEdits, CompareStrings;
    var diff := Turn(a, b, caseSensitive);
    ComposeConcat(HeadEdits(whole, path, a, b, diff, caseSensitive),
                  MemberEdits(whole, path, if diff <= 0 then a[1..] else a, if diff >= 0 then b[1..]
                    else b, caseSensitive));
  }

  lemma StillReordered(s: seq<Json>, s': seq<Json>, rest: seq<Json>)
    requires ReorderedItems(s, s')
    ensures ReorderedItems(s + rest, s' + rest)
  {}

  /** What is left of `ItemEdits` once one list has run out: only removals, or only additions. */
  lemma {:induction false} ItemEditsEnd(path: Text, a: seq<Json>, b: seq<Json>, index: nat, caseSensitive: bool)
    requires a == [] || b == []
    ensures ItemEdits(path, a, b, index, caseSensitive)
      == seq(|a|, _ => Edit(REMOVE, path + [SLASH] + Encode(Digits(index)), None))
       + seq(|b|, i requires 0 <= i < |b| => Edit(ADD, path + [SLASH] + Encode(DASH), Some(b[i])))
    decreases |a| + |b|
  {
    if a != [] {
      ItemEditsEnd(path, a[1..], [], index, caseSensitive);
    } else if b != [] {
      ItemEditsEnd(path, [], b[1..], index + 1, caseSensitive);
    }
  }

  /** The branches of `apply_patch` for an array and for an object. */
  method AddToParent(parent: Json, name: Text, value: Json, caseSensitive: bool)
    returns (status: int, fault: bool, changed: Json)
    ensures AddBelow(parent, name, value, caseSensitive) == if fault then Fault else Applied(status, changed)
  {
    match parent {
      case Array(elements) =>
        if name == DASH {
          return 0, false, Array(elements + [value]);
        }
        var ok, index := DecodeArrayIndexFromPointer(name);
        if !ok {
          return 11, false, parent;
        }
        if index > |elements| {
          return 10, false, parent;
        }
        return 0, false, Array(elements[..index] + [value] + elements[index..]);
      case Object(members, tail) =>
        var i := GetObjectItem(members, name, caseSensitive);
        var others, left := members, tail;
        if i < |members| {
          others, left := RemoveAt(members, i), RemoveTail(|members|, tail, i);
        }
        if others != [] && left == Dangling {
          return 0, true, parent;
        }
        return 0, false, Object(Append(others, left, Entry(name, value)), AppendTail(others, left));
      case _ =>
        return 9, false, parent;
    }
  }

  /** The tree that patches are applied to. */
  class Document {
    var root: Json

    constructor (root: Json)
      ensures this.root == root
    {
      this.root := root;
    }

    /** `detach_path`: unlinks the node and hands it back. */
    method DetachPath(path: Text, caseSensitive: bool) returns (item: Option<Json>)
      modifies this
      ensures Patch.DetachPath(old(root), path, caseSensitive) == if item.Some? then Detached(item.value, root)
        else NotFound
      ensures item.None? ==> root == old(root)
      ensures UniqueIn(old(root), caseSensitive) ==>
        forall ts | ts != [] && path == M.PathOf(ts) && M.Removable(old(root), ts, caseSensitive) ::
          var want := M.RfcRemove(Denote(old(root)), ts, caseSensitive);
          && (item.Some? <==> want.Some?)
          && (item.Some? ==>
            Denote(root) == want.value && M.Lookup(Denote(old(root)), ts, caseSensitive) == Some(Denote(item.value)))
    {
      forall ts | UniqueIn(root, caseSensitive) && ts != [] && path == M.PathOf(ts) &&
        M.Removable(root, ts, caseSensitive)
        ensures var d, want := Patch.DetachPath(root, path, caseSensitive),
          M.RfcRemove(Denote(root), ts, caseSensitive);
          && (d.Detached? <==> want.Some?)
          && (d.Detached? ==>
            Denote(d.root) == want.value && M.Lookup(Denote(root), ts, caseSensitive) == Some(Denote(d.item)))
      {
        M.RemoveMeans(root, ts, caseSensitive);
      }
      var slash := LastSlash(path);
      if slash.None? {
        return None;
      }
      var at := GetItemFromPointer(root, path[..slash.value], caseSensitive);
      if at.None? {
        return None;
      }
      var parent := NodeAt(root, at.value);
      var i := ChildToDetach(parent, DecodeInPlace(path[slash.value+1..]));
      if i.None? {
        return None;
      }
      root := ReplaceNode(root, at.value, RemoveChild(parent, i.value));
      return Some(Child(parent, i.value));
    }

    /** The part of `apply_patch` that links the value in. */
    method AddValue(path: Text, value: Json, caseSensitive: bool) returns (status: int, fault: bool)
      modifies this
      ensures AddAt(old(root), path, value, caseSensitive) == if fault then Fault else Applied(status, root)
      ensures UniqueIn(old(root), caseSensitive) && UniqueIn(value, caseSensitive) ==>
        forall ts | ts != [] && path == M.PathOf(ts) && M.Addable(old(root), ts, caseSensitive) ::
          M.Agrees(if fault then Fault else Applied(status, root),
            M.RfcAdd(Denote(old(root)), ts, Denote(value), caseSensitive), caseSensitive)
    {
      hide AddBelow, M.Agrees, M.Addable, M.RfcAdd, M.PathOf;
      forall ts | UniqueIn(root, caseSensitive) && UniqueIn(value, caseSensitive) && ts != [] && path == M.PathOf(ts) &&
        M.Addable(root, ts, caseSensitive)
        ensures M.Agrees(AddAt(root, path, value, caseSensitive),
          M.RfcAdd(Denote(root), ts, Denote(value), caseSensitive), caseSensitive)
      {
        M.AddMeans(root, ts, value, caseSensitive);
      }
      var slash := LastSlash(path);
      if slash.None? {
        return 9, false;
      }
      var at := GetItemFromPointer(root, path[..slash.value], caseSensitive);
      if at.None? {
        return 9, false;
      }
      var parent;
      status, fault,
        parent := AddToParent(NodeAt(root, at.value), DecodeInPlace(path[slash.value+1..]), value, caseSensitive);
      if status == 0 && !fault {
        root := ReplaceNode(root, at.value, parent);
      }
    }

    /** `apply_patch`; `fault` marks a call with a NULL string and an append through a node that has left the list. */
    method ApplyPatch(patch: Json, caseSensitive: bool) returns (status: int, fault: bool)
      modifies this
      ensures Patch.ApplyPatch(old(root), patch, caseSensitive) == if fault then Fault else Applied(status, root)
      ensures UniqueIn(old(root), caseSensitive) ==>
        forall op | M.Spells(patch, op, caseSensitive) && M.Meets(old(root), op, caseSensitive) ::
          M.Agrees(if fault then Fault else Applied(status, root),
            M.RfcApply(Denote(old(root)), op, caseSensitive), caseSensitive)
    {
      hide M.Agrees, M.Spells, M.Meets, M.RfcApply;
      forall op | UniqueIn(root, caseSensitive) && M.Spells(patch, op, caseSensitive) &&
        M.Meets(root, op, caseSensitive)
        ensures M.Agrees(Patch.ApplyPatch(root, patch, caseSensitive), M.RfcApply(Denote(root), op, caseSensitive),
          caseSensitive)
      {
        M.ApplyPatchMeans(root, patch, op, caseSensitive);
      }
      fault := false;
      var path := GetItem(patch, PATH, caseSensitive);
      if path.None? || !path.value.String? {
        return 2, false;
      }
      var opcode := DecodeOperation(patch, caseSensitive);
      var value := GetItem(patch, VALUE, caseSensitive);
      if opcode == INVALID_OP {
        return 3, false;
      }
      if opcode == TEST_OP {
        var at := GetItemFromPointer(root, path.value.s, caseSensitive);
        if at.None? || value.None? {
          return 1, false;
        }
        var same, a, _ := RunCompareJson(NodeAt(root, at.value), value.value, caseSensitive);
        root := ReplaceNode(root, at.value, a);
        return if same then 0 else 1, false;
      }
      if path.value.s == [] {
        if opcode == REMOVE_OP {
          root := Invalid;
          return 0, false;
        }
        if opcode == REPLACE_OP || opcode == ADD_OP {
          if value.None? {
            return 7, false;
          }
          root := Fresh(value.value);
          return 0, false;
        }
      }
      if opcode == REMOVE_OP || opcode == REPLACE_OP {
        var removed := DetachPath(path.value.s, caseSensitive);
        if removed.None? {
          return 13, false;
        }
        if opcode == REMOVE_OP {
          return 0, false;
        }
      }
      if opcode == MOVE_OP || opcode == COPY_OP {
        var from := GetItem(patch, FROM, caseSensitive);
        if from.None? {
          return 4, false;
        }
        if !from.value.String? {
          return 5, opcode == MOVE_OP;
        }
        if opcode == MOVE_OP {
          value := DetachPath(from.value.s, caseSensitive);
        } else {
          var at := GetItemFromPointer(root, from.value.s, caseSensitive);
          value := if at.Some? then Some(Fresh(NodeAt(root, at.value))) else None;
        }
        if value.None? {
          return 5, false;
        }
      } else if value.None? {
        return 7, false;
      } else {
        value := Some(Fresh(value.value));
      }
      status, fault := AddValue(path.value.s, value.value, caseSensitive);
    }

    /** `cJSONUtils_ApplyPatches`. */
    method ApplyPatches(patches: Json, caseSensitive: bool) returns (status: int, fault: bool)
      modifies this
      ensures Patch.ApplyPatches(old(root), patches, caseSensitive) == if fault then Fault else Applied(status, root)
      ensures UniqueIn(old(root), caseSensitive) && patches.Array? ==>
        forall ops | |ops| == |patches.items| && M.MeetsAll(old(root), patches.items, ops, caseSensitive) ::
          M.Agrees(if fault then Fault else Applied(status, root),
            M.RfcApplyAll(Denote(old(root)), ops, caseSensitive), caseSensitive)
    {
      hide M.Agrees, M.MeetsAll, M.RfcApplyAll, Patch.ApplyPatch;
      forall ops | UniqueIn(root, caseSensitive) && patches.Array? && |ops| == |patches.items| &&
        M.MeetsAll(root, patches.items, ops, caseSensitive)
        ensures M.Agrees(Patch.ApplyPatches(root, patches, caseSensitive),
          M.RfcApplyAll(Denote(root), ops, caseSensitive), caseSensitive)
      {
        M.ApplyPatchesMeans(root, patches.items, ops, caseSensitive);
        assert patches == Array(patches.items);
      }
      if !patches.Array? {
        return 1, false;
      }
      var current := patches.items;
      while current != []
        invariant ApplyAll(old(root), patches.items, caseSensitive) == ApplyAll(root, current, caseSensitive)
        decreases |current|
      {
        status, fault := ApplyPatch(current[0], caseSensitive);
        if fault || status != 0 {
          return;
        }
        current := current[1..];
      }
      return 0, false;
    }
  }
}
