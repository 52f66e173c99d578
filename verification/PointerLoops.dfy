/** The pointer routines as they run: loops that advance through NUL-terminated strings. */
module PointerLoops {
  import opened Basics
  import opened Strings
  import opened Json
  import opened Pointer

  /** `compare_pointers`. */
  method RunComparePointers(name: Text, p: Text, caseSensitive: bool) returns (matches: bool)
    ensures matches == ComparePointers(name, p, caseSensitive)
  {
    var i, j := 0, 0;
    while i < |name| && j < |p| && p[j] != SLASH
      invariant i <= |name| && j <= |p|
      invariant ComparePointers(name, p, caseSensitive) == ComparePointers(name[i..], p[j..], caseSensitive)
    {
      if p[j] == TILDE {
        if j + 1 == |p| || ((p[j+1] != ZERO || name[i] != TILDE) && (p[j+1] != ONE || name[i] != SLASH)) {
          return false;
        }
        assert p[j..][2..] == p[j+2..];
        j := j + 1;
      } else if (!caseSensitive && ToLower(name[i]) != ToLower(p[j])) || (caseSensitive && name[i] != p[j]) {
        return false;
      } else {
        assert p[j..][1..] == p[j+1..];
      }
      assert name[i..][1..] == name[i+1..];
      i, j := i + 1, j + 1;
    }
    matches := (j < |p| && p[j] != SLASH) == (i < |name|);
  }

  /** `pointer_encoded_length`. */
  method PointerEncodedLength(s: Text) returns (length: nat)
    ensures length == |Encode(s)|
  {
    length := 0;
    var i := 0;
    while i < |s|
      invariant i <= |s| && length + |Encode(s[i..])| == |Encode(s)|
    {
      assert s[i..][1..] == s[i+1..];
      if s[i] == TILDE || s[i] == SLASH {
        length := length + 1;
      }
      i, length := i + 1, length + 1;
    }
  }

  /** `encode_string_as_pointer`, writing from index `start` of the destination. */
  method EncodeStringAsPointer(destination: array<Byte>, start: nat, source: Text)
    requires start + |Encode(source)| < destination.Length
    modifies destination
    ensures destination[start..start+|Encode(source)|] == Encode(source)
    ensures destination[start+|Encode(source)|] == 0
    ensures destination[..start] == old(destination[..start])
    ensures destination[start+|Encode(source)|+1..] == old(destination[start+|Encode(source)|+1..])
  {
    hide Encode, EncodeByte;
    var i, at := 0, start;
    ghost var end := start + |Encode(source)|;
    assert source[0..] == source;
    while i < |source|
      invariant i <= |source| && start <= at && at + |Encode(source[i..])| == end
      invariant destination[start..at] + Encode(source[i..]) == Encode(source)
      invariant destination[..start] == old(destination[..start])
      invariant destination[end+1..] == old(destination[end+1..])
    {
      EncodeStep(source[i..]);
      ghost var before, rest := destination[start..at], Encode(source[i+1..]);
      assert source[i..][1..] == source[i+1..];
      assert Encode(source) == (before + EncodeByte(source[i])) + rest;
      if source[i] == SLASH {
        destination[at], destination[at+1] := TILDE, ONE;
        at := at + 1;
      } else if source[i] == TILDE {
        destination[at], destination[at+1] := TILDE, ZERO;
        at := at + 1;
      } else {
        destination[at] := source[i];
      }
      i, at := i + 1, at + 1;
      assert destination[start..at] == before + EncodeByte(source[i-1]);
    }
    EncodeEnd();
    assert source[i..] == [] && at == end;
    destination[at] := 0;
    assert destination[start..end] == Encode(source);
  }

  lemma EncodeStep(s: Text)
    requires s != []
    ensures Encode(s) == EncodeByte(s[0]) + Encode(s[1..])
    ensures EncodeByte(s[0]) == if s[0] == SLASH then [TILDE, ONE] else if s[0] == TILDE then [TILDE, ZERO] else [s[0]]
  {}

  lemma EncodeEnd()
    ensures Encode([]) == []
  {}

  /** `decode_array_index_from_pointer`. */
  method DecodeArrayIndexFromPointer(p: Text) returns (ok: bool, index: nat)
    ensures DecodeIndex(p) == if ok then Some(index) else None
  {
    index := 0;
    if |p| > 1 && p[0] == ZERO && p[1] != SLASH {
      return false, 0;
    }
    var parsed: nat, position: nat := 0, 0;
    while position < |p| && p[position] >= ZERO && p[0] <= NINE
      invariant position <= |p| && IndexLoop(p, 0, 0) == IndexLoop(p, position, parsed)
    {
      parsed := (10 * parsed + p[position] - ZERO) % SIZE_RANGE;
      position := position + 1;
    }
    if position < |p| && p[position] != SLASH {
      return false, 0;
    }
    return true, parsed;
  }

  /** One turn of the `get_item_from_pointer` loop: the child that the token at `at` selects. */
  method SelectChild(current: Json, p: Text, at: nat, caseSensitive: bool) returns (child: Option<nat>)
    requires at <= |p|
    ensures child == Select(current, p[at..], caseSensitive)
  {
    match current {
      case Array(items) =>
        var ok, index := DecodeArrayIndexFromPointer(p[at..]);
        return if ok && index < |items| then Some(index) else None;
      case Object(members, _) =>
        var i := 0;
        while i < |members|
          invariant i <= |members|
          invariant forall k | 0 <= k < i :: !ComparePointers(members[k].key, p[at..], caseSensitive)
        {
          var matches := RunComparePointers(members[i].key, p[at..], caseSensitive);
          if matches {
            return Some(i);
          }
          i := i + 1;
        }
        return None;
      case _ =>
        return None;
    }
  }

  /** The loop that moves on to the next `/` or to the end. */
  method SkipToSlash(p: Text, at: nat) returns (next: nat)
    requires at <= |p|
    ensures at <= next <= |p| && p[next..] == SkipToken(p[at..])
  {
    next := at;
    while next < |p| && p[next] != SLASH
      invariant at <= next <= |p| && SkipToken(p[next..]) == SkipToken(p[at..])
    {
      assert p[next..][1..] == p[next+1..];
      next := next + 1;
    }
  }

  /** `get_item_from_pointer`; the position of the node it returns, none for NULL. */
  method GetItemFromPointer(root: Json, p: Text, caseSensitive: bool) returns (found: Option<Position>)
    ensures found == Resolve(root, p, caseSensitive)
  {
    var current, at, here := root, 0, [];
    BelowNothing(Resolve(root, p, caseSensitive));
    assert p[0..] == p;
    while at < |p| && p[at] == SLASH
      invariant at <= |p|
      invariant Resolve(root, p, caseSensitive) == Below(here, Resolve(current, p[at..], caseSensitive))
      decreases |p| - at
    {
      assert p[at..][1..] == p[at+1..];
      var child := SelectChild(current, p, at + 1, caseSensitive);
      if child.None? {
        return None;
      }
      at := SkipToSlash(p, at + 1);
      BelowBelow(here, child.value, Resolve(Child(current, child.value), p[at..], caseSensitive));
      current, here := Child(current, child.value), here + [child.value];
    }
    assert here + [] == here;
    return Some(here);
  }

  ghost function Below(here: Position, rest: Option<Position>): Option<Position> {
    if rest.None? then None else Some(here + rest.value)
  }

  lemma BelowNothing(rest: Option<Position>)
    ensures Below([], rest) == rest
  {
    if rest.Some? {
      assert [] + rest.value == rest.value;
    }
  }

  lemma BelowBelow(here: Position, child: nat, rest: Option<Position>)
    ensures Below(here, if rest.None? then None else Some([child] + rest.value)) == Below(here + [child], rest)
  {
    if rest.Some? {
      assert here + ([child] + rest.value) == (here + [child]) + rest.value;
    }
  }

  /**
   `cJSONUtils_FindPointerFromObjectTo`. A node's identity is its position: the search
   walks the tree below `here` in order and compares each node it meets with the target.
   */
  method FindPointerFromObjectTo(root: Json, here: Position, target: Position) returns (found: Option<Text>)
    ensures found == if here <= target && ValidPosition(root, target[|here|..])
                     then Some(PointerTo(root, target[|here|..])) else None
    decreases root
  {
    if here == target {
      return Some([]);
    }
    var i := 0;
    while i < Width(root)
      invariant i <= Width(root)
      invariant forall k | 0 <= k < i :: !(here + [k] <= target && ValidPosition(Child(root, k), target[|here|+1..]))
    {
      var below := FindPointerFromObjectTo(Child(root, i), here + [i], target);
      if below.Some? {
        assert target[|here|..][0] == i && target[|here|..][1..] == target[|here|+1..];
        assert here <= target;
        return Some([SLASH] + Token(root, i) + below.value);
      }
      i := i + 1;
    }
    if here <= target && ValidPosition(root, target[|here|..]) {
      EntersChild(root, here, target);
    }
    return None;
  }

  lemma EntersChild(root: Json, here: Position, target: Position)
    requires here <= target && here != target && ValidPosition(root, target[|here|..])
    ensures var k := target[|here|];
      k < Width(root) && here + [k] <= target && ValidPosition(Child(root, k), target[|here|+1..])
  {
    assert target[|here|..][1..] == target[|here|+1..];
  }

  /** `decode_pointer_inplace`, on a buffer that holds a string of n bytes. */
  method DecodePointerInPlace(a: array<Byte>, ghost n: nat)
    requires n < a.Length && a[n] == 0 && NulFree(a[..n])
    modifies a
    ensures CString(a[..]) == DecodeInPlace(old(a[..n]))
    ensures a[n..] == old(a[n..])
  {
    var decoded, reading := 0, 0;
    while a[reading] != 0
      invariant decoded <= reading <= n && a[n..] == old(a[n..])
      invariant NulFree(a[..n])
      invariant DecodeInPlace(old(a[..n])) == DecodeLoop(a[..n], reading, decoded)
      decreases n - reading
    {
      assert reading < n && a[n] == 0;
      if a[reading] == TILDE {
        if a[reading+1] == ZERO {
          ghost var before := a[..n];
          a[decoded] := TILDE;
          assert a[..n] == before[decoded := TILDE];
        } else if a[reading+1] == ONE {
          ghost var before := a[..n];
          a[decoded+1] := SLASH;
          assert a[..n] == before[decoded+1 := SLASH];
        } else {
          assert a[..][..n] == a[..n];
          CStringEnds(a[..], n);
          return;
        }
        reading := reading + 1;
      }
      decoded, reading := decoded + 1, reading + 1;
    }
    assert reading == n;
    ghost var result := a[..decoded];
    assert a[..n][..decoded] == result;
    a[decoded] := 0;
    assert a[..][..decoded] == result;
    CStringEnds(a[..], decoded);
  }
}
