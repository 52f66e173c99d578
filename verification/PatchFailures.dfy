/** What `apply_patch` reports, and leaves behind, where the RFC's operation fails. */
module PatchFailures {
  import opened Basics
  import opened Strings
  import opened Json
  import opened Folding
  import opened Pointer
  import opened PointerProofs
  import PointerDecoding
  import opened Readback
  import opened Patch
  import opened PatchMembers
  import opened PatchMeaning

  /** An addition fails with 10 where the parent is an array that is too short, and with 9 where there is no parent. */
  ghost function AddStatus(v: Value, ts: Tokens, cs: bool): int
    requires ts != []
  {
    var p := Lookup(v, Front(ts), cs);
    if p.Some? && p.value.VArray? then 10 else 9
  }

  lemma AddBelowFails(parent: Json, t: Text, v: Json, cs: bool)
    requires Takes(parent, t, cs) && AddChild(Denote(parent), t, Denote(v), cs).None?
    ensures AddBelow(parent, ReadBack(t), v, cs) == Applied(if parent.Array? then 10 else 9, parent)
  {
    hide DecodeIndex, ReadBack, Encode, DecodeInPlace, PointerDecoding.Survives, Ends;
    match parent
    case Array(items) =>
      ItemsOf(items);
      IndexReads(t, []);
    case _ =>
  }

  /** A failed addition changes nothing. */
  lemma AddFails(root: Json, ts: Tokens, v: Json, cs: bool)
    requires UniqueIn(root, cs) && UniqueIn(v, cs) && ts != [] && Addable(root, ts, cs)
    requires RfcAdd(Denote(root), ts, Denote(v), cs).None?
    ensures AddAt(root, PathOf(ts), v, cs) == Applied(AddStatus(Denote(root), ts, cs), root)
  {
    hide UniqueIn, Unique, Denote, PathOf, Encode, DecodeInPlace, AddBelow, AddChild, Takes, Indexed, Lookup, Update,
      Resolve, NodeAt, ReplaceNode, AddAt, LastSlash, ValidPosition;
    AddSplit(root, ts, v, cs);
    ResolveMeans(root, Front(ts), cs);
    var at := Resolve(root, PathOf(Front(ts)), cs);
    if at.Some? {
      var parent := NodeAt(root, at.value);
      AddBelowFails(parent, Final(ts), v, cs);
      ArrayMeans(parent);
    }
  }

  /** What has been removed can be put back: replacing never fails half-way. */
  lemma PutBack(v: Value, ts: Tokens, w: Value, cs: bool)
    requires ts != [] && RfcRemove(v, ts, cs).Some?
    ensures RfcAdd(RfcRemove(v, ts, cs).value, ts, w, cs).Some?
  {
    hide Lookup, Update;
    var p := Lookup(v, Front(ts), cs).value;
    var c := RemoveChildOf(p, Final(ts), cs).value;
    UpdateTwice(v, Front(ts), c, c, cs);
    if p.VArray? {
      DashIsNoIndex(IndexOf(Final(ts)).value);
    }
  }

  /** The failure of each operation. */
  ghost predicate FailsAs(root: Json, op: RfcOp, r: Applied, cs: bool) {
    match op
    case Add(_, _) => op.path != [] && r == Applied(AddStatus(Denote(root), op.path, cs), root)
    case Remove(_) => r == Applied(13, root)
    case Replace(_, _) => r == Applied(13, root)
    case Move(_, _) => op.path != [] && MoveFailsAs(root, op.from, op.path, r, cs)
    case Copy(_, _) =>
      && op.path != []
      && r == Applied(if Lookup(Denote(root), op.from, cs).None? then 5 else AddStatus(Denote(root), op.path, cs), root)
    case Test(_, _) => r.Applied? && r.status == 1 && Denote(r.root) == Denote(root)
  }

  ghost predicate MoveFailsAs(root: Json, from: Tokens, path: Tokens, r: Applied, cs: bool)
    requires path != []
  {
    if Lookup(Denote(root), from, cs).None? then r == Applied(5, root)
    else
      var rest := RfcRemove(Denote(root), from, cs);
      rest.Some? && r.Applied? && r.status == AddStatus(rest.value, path, cs) && Denote(r.root) == rest.value
  }

  /**
   RFC 6902, section 5, has a failing operation end the whole patch document; what it leaves
   behind is the document as it was, except that a `move` whose target cannot be added to
   has lost what it was to move.
   */
  lemma FailureMeans(root: Json, patch: Json, op: RfcOp, cs: bool)
    requires UniqueIn(root, cs) && Spells(patch, op, cs) && Meets(root, op, cs)
    requires RfcApply(Denote(root), op, cs).None?
    ensures FailsAs(root, op, ApplyPatch(root, patch, cs), cs)
  {
    hide UniqueIn, Unique, Denote, PathOf, GetItem, DecodeOperation, AddAt, DetachPath, TestAt, RfcAdd, RfcRemove,
      Fresh, Addable, Removable, Indexed, ApplyPatch, Lookup, Resolve, NodeAt, Spells, AddStatus;
    Dispatched(root, patch, op, cs);
    PathNotEmpty(op.path);
    match op
    case Add(path, w) =>
      WholeMeans(Denote(root), w, cs);
      var v := Carried(patch, op, cs);
      AddFails(root, path, v, cs);
    case Remove(path) =>
      WholeMeans(Denote(root), VInvalid, cs);
      RemoveMeans(root, path, cs);
    case Replace(path, w) =>
      WholeMeans(Denote(root), VInvalid, cs);
      WholeMeans(VInvalid, w, cs);
      RemoveMeans(root, path, cs);
      if RfcRemove(Denote(root), path, cs).Some? {
        PutBack(Denote(root), path, w, cs);
      }
    case Move(from, path) => MoveFails(root, patch, op, cs);
    case Copy(from, path) =>
      ResolveMeans(root, from, cs);
      var at := Resolve(root, PathOf(from), cs);
      if at.Some? {
        FreshUnique(NodeAt(root, at.value), cs);
        AddFails(root, path, Fresh(NodeAt(root, at.value)), cs);
      }
    case Test(path, w) =>
      var v := Carried(patch, op, cs);
      hide SeenAs;
      TestStatus(root, PathOf(path), GetItem(patch, VALUE, cs), cs);
      TestMeans(root, path, GetItem(patch, VALUE, cs).value, cs);
  }

  lemma TestStatus(root: Json, path: Text, value: Option<Json>, cs: bool)
    ensures TestAt(root, path, value, cs).Applied? && TestAt(root, path, value, cs).status in {0, 1}
  {
    hide Resolve;
  }

  lemma MoveFails(root: Json, patch: Json, op: RfcOp, cs: bool)
    requires op.Move? && UniqueIn(root, cs) && Spells(patch, op, cs) && Meets(root, op, cs)
    requires RfcApply(Denote(root), op, cs).None?
    ensures MoveFailsAs(root, op.from, op.path, ApplyPatch(root, patch, cs), cs)
  {
    hide UniqueIn, Unique, Denote, PathOf, GetItem, DecodeOperation, AddAt, DetachPath, TestAt, RfcAdd, Fresh, Addable,
      Removable, Indexed, ApplyPatch, Lookup, Resolve, NodeAt, Spells, AddStatus, Step, RemoveChildOf, Update;
    Dispatched(root, patch, op, cs);
    RemoveMeans(root, op.from, cs);
    LookupLast(Denote(root), op.from, cs);
    var d := DetachPath(root, PathOf(op.from), cs);
    if d.Detached? {
      AddFails(d.root, op.path, d.item, cs);
    } else if Lookup(Denote(root), Front(op.from), cs).Some? {
      StepRemoves(Lookup(Denote(root), Front(op.from), cs).value, Final(op.from), cs);
    }
  }

  /** A child can be removed exactly if it is there. */
  lemma StepRemoves(p: Value, t: Text, cs: bool)
    ensures RemoveChildOf(p, t, cs).Some? <==> Step(p, t, cs).Some?
  {}

  // ----- patches that lack something

  /** No member is called so. */
  ghost predicate Lacks(patch: Json, name: Text, cs: bool) {
    patch.Object? ==> forall i | 0 <= i < |patch.members| :: !SameName(name, patch.members[i].key, cs)
  }

  lemma LacksFound(patch: Json, name: Text, cs: bool)
    requires Lacks(patch, name, cs)
    ensures GetItem(patch, name, cs) == None
  {
    if patch.Object? {
      var ms, i := patch.members, FindKey(patch.members, name, cs);
      if i < |ms| {
        SameNameCompares(name, ms[i].key, cs);
      }
    }
  }

  /** s names an operation of section 4. */
  ghost predicate Names(s: Text) {
    exists op :: NameOf(op) == s
  }

  lemma NamesOf(s: Text)
    ensures Names(s) <==> s in {ADD, REMOVE, REPLACE, MOVE, COPY, TEST}
  {
    hide Ascii;
    NamesAre();
    assert NameOf(Add([], VNull)) == ADD && NameOf(Remove([])) == REMOVE && NameOf(Replace([], VNull)) == REPLACE;
    assert NameOf(Move([], [])) == MOVE && NameOf(Copy([], [])) == COPY && NameOf(Test([], VNull)) == TEST;
  }

  /** What every patch has to have: a path, and one of the six operations. */
  lemma Unreadable(root: Json, patch: Json, p: Text, s: Text, cs: bool)
    ensures Lacks(patch, Ascii("path"), cs) ==> ApplyPatch(root, patch, cs) == Applied(2, root)
    ensures Holds(patch, Ascii("path"), String(p), cs) && Lacks(patch, Ascii("op"), cs) ==>
      ApplyPatch(root, patch, cs) == Applied(3, root)
    ensures Holds(patch, Ascii("path"), String(p), cs) && Holds(patch, Ascii("op"), String(s), cs) && !Names(s) ==>
      ApplyPatch(root, patch, cs) == Applied(3, root)
  {
    hide Holds, Lacks, Ascii, GetItem, Names;
    NamesAre();
    NamesOf(s);
    if Lacks(patch, PATH, cs) {
      LacksFound(patch, PATH, cs);
    }
    if Holds(patch, PATH, String(p), cs) {
      HoldsFound(patch, PATH, String(p), cs);
      if Lacks(patch, OP, cs) {
        LacksFound(patch, OP, cs);
      }
      if Holds(patch, OP, String(s), cs) {
        HoldsFound(patch, OP, String(s), cs);
      }
    }
  }

  /** What single operations have to have: a value, or where to take it from. A `replace` without a value has removed
   what it was to replace. */
  lemma Incomplete(root: Json, patch: Json, op: RfcOp, cs: bool)
    requires Holds(patch, Ascii("op"), String(NameOf(op)), cs)
    requires Holds(patch, Ascii("path"), String(PathOf(op.path)), cs) && op.path != []
    ensures op.Add? && Lacks(patch, Ascii("value"), cs) ==> ApplyPatch(root, patch, cs) == Applied(7, root)
    ensures op.Test? && Lacks(patch, Ascii("value"), cs) ==> ApplyPatch(root, patch, cs) == Applied(1, root)
    ensures (op.Move? || op.Copy?) && Lacks(patch, Ascii("from"), cs) ==>
      ApplyPatch(root, patch, cs) == Applied(4, root)
    ensures op.Replace? && Lacks(patch, Ascii("value"), cs) && UniqueIn(root, cs) && Removable(root, op.path, cs) ==>
      var r, want := ApplyPatch(root, patch, cs), RfcRemove(Denote(root), op.path, cs);
      r.Applied? && if want.None? then r == Applied(13, root) else r.status == 7 && Denote(r.root) == want.value
  {
    hide Holds, Lacks, Ascii, GetItem, DetachPath, AddAt, Resolve, PathOf, RfcRemove, Removable, UniqueIn, Denote,
      DecodeOperation, Fresh;
    NamesAre();
    PathNotEmpty(op.path);
    HoldsFound(patch, OP, String(NameOf(op)), cs);
    HoldsFound(patch, PATH, String(PathOf(op.path)), cs);
    Coded(patch, op, cs);
    if Lacks(patch, VALUE, cs) {
      LacksFound(patch, VALUE, cs);
    }
    if Lacks(patch, FROM, cs) {
      LacksFound(patch, FROM, cs);
    }
    if op.Replace? && UniqueIn(root, cs) && Removable(root, op.path, cs) {
      RemoveMeans(root, op.path, cs);
    }
  }
}
