/** JSON Pointer as the library reads and writes it (RFC 6901). */
module Pointer {
  import opened Basics
  import opened Strings
  import opened Json

  const ZERO: Byte := 48
  const ONE: Byte := 49
  const NINE: Byte := 57
  const SLASH: Byte := 47
  const TILDE: Byte := 126

  /** `size_t` on the Cortex-M4 has 32 bits. */
  const SIZE_RANGE: nat := 0x1_0000_0000

  /** Where a node sits: the child indices on the way down from the root. */
  type Position = seq<nat>

  function EncodeByte(c: Byte): Text {
    if c == SLASH then [TILDE, ONE] else if c == TILDE then [TILDE, ZERO] else [c]
  }

  /** `encode_string_as_pointer`. */
  function Encode(s: Text): Text {
    if s == [] then [] else EncodeByte(s[0]) + Encode(s[1..])
  }

  predicate AtEnd(p: Text) {
    p == [] || p[0] == SLASH
  }

  /** `compare_pointers`: is name the next token of p? */
  predicate ComparePointers(name: Text, p: Text, caseSensitive: bool) {
    if name == [] || AtEnd(p) then name == [] && AtEnd(p)
    else if p[0] == TILDE then
      && |p| > 1
      && ((p[1] == ZERO && name[0] == TILDE) || (p[1] == ONE && name[0] == SLASH))
      && ComparePointers(name[1..], p[2..], caseSensitive)
    else
      && (if caseSensitive then name[0] == p[0] else ToLower(name[0]) == ToLower(p[0]))
      && ComparePointers(name[1..], p[1..], caseSensitive)
  }

  /** The digit loop of `decode_array_index_from_pointer`; its second test looks at the first byte of the token. */
  function IndexLoop(p: Text, position: nat, parsed: nat): (r: (nat, nat))
    requires position <= |p|
    ensures position <= r.1 <= |p|
    decreases |p| - position
  {
    if position < |p| && p[position] >= ZERO && p[0] <= NINE
    then IndexLoop(p, position + 1, (10 * parsed + p[position] - ZERO) % SIZE_RANGE)
    else (parsed, position)
  }

  function DecodeIndex(p: Text): Option<nat> {
    if |p| > 1 && p[0] == ZERO && p[1] != SLASH then None
    else
      var (parsed, position) := IndexLoop(p, 0, 0);
      if AtEnd(p[position..]) then Some(parsed) else None
  }

  function SkipToken(p: Text): (r: Text)
    ensures |r| <= |p|
  {
    if AtEnd(p) then p else SkipToken(p[1..])
  }

  /** The member loop of `get_item_from_pointer`. */
  function FindToken(ms: seq<Member>, p: Text, caseSensitive: bool): (i: nat)
    ensures i <= |ms|
    ensures forall j | 0 <= j < i :: !ComparePointers(ms[j].key, p, caseSensitive)
    ensures i < |ms| ==> ComparePointers(ms[i].key, p, caseSensitive)
  {
    if ms == [] || ComparePointers(ms[0].key, p, caseSensitive) then 0
    else 1 + FindToken(ms[1..], p, caseSensitive)
  }

  /** How many nodes hang below j. */
  function Width(j: Json): nat {
    match j
    case Array(items) => |items|
    case Object(members, _) => |members|
    case _ => 0
  }

  function Child(j: Json, i: nat): Json
    requires i < Width(j)
  {
    if j.Array? then j.items[i] else j.members[i].value
  }

  function SetChild(j: Json, i: nat, c: Json): Json
    requires i < Width(j)
  {
    match j
    case Array(items) => Array(items[i := c])
    case Object(members, tail) => Object(members[i := members[i].(value := c)], tail)
  }

  /** Which child the token at the front of p selects. */
  function Select(j: Json, p: Text, caseSensitive: bool): (r: Option<nat>)
    ensures r.Some? ==> r.value < Width(j)
  {
    match j
    case Array(items) =>
      var index := DecodeIndex(p);
      if index.Some? && index.value < |items| then index else None
    case Object(members, _) =>
      var i := FindToken(members, p, caseSensitive);
      if i < |members| then Some(i) else None
    case _ => None
  }

  /** `get_item_from_pointer`: the position of the node, relative to the start. */
  function Resolve(j: Json, p: Text, caseSensitive: bool): (r: Option<Position>)
    ensures r.Some? ==> ValidPosition(j, r.value)
    decreases |p|
  {
    if p == [] || p[0] != SLASH then Some([])
    else
      var i := Select(j, p[1..], caseSensitive);
      if i.None? then None
      else
        var rest := Resolve(Child(j, i.value), SkipToken(p[1..]), caseSensitive);
        if rest.None? then None else Some([i.value] + rest.value)
  }

  predicate ValidPosition(j: Json, pos: Position)
    decreases |pos|
  {
    pos == [] || (pos[0] < Width(j) && ValidPosition(Child(j, pos[0]), pos[1..]))
  }

  function NodeAt(j: Json, pos: Position): Json
    requires ValidPosition(j, pos)
    decreases |pos|
  {
    if pos == [] then j else NodeAt(Child(j, pos[0]), pos[1..])
  }

  function ReplaceNode(j: Json, pos: Position, c: Json): Json
    requires ValidPosition(j, pos)
    decreases |pos|
  {
    if pos == [] then c else SetChild(j, pos[0], ReplaceNode(Child(j, pos[0]), pos[1..], c))
  }

  /** The token that names child i. */
  function Token(j: Json, i: nat): Text
    requires i < Width(j)
  {
    if j.Object? then Encode(j.members[i].key) else Digits(i)
  }

  /** The text `cJSONUtils_FindPointerFromObjectTo` builds for the node at pos. */
  function PointerTo(j: Json, pos: Position): Text
    requires ValidPosition(j, pos)
    decreases |pos|
  {
    if pos == [] then [] else [SLASH] + Token(j, pos[0]) + PointerTo(Child(j, pos[0]), pos[1..])
  }

  /** No array has more elements than `size_t` can count. */
  ghost predicate Countable(j: Json) {
    match j
    case Array(items) => |items| <= SIZE_RANGE && forall i | 0 <= i < |items| :: Countable(items[i])
    case Object(members, _) => forall i | 0 <= i < |members| :: Countable(members[i].value)
    case _ => true
  }

  /** A lookup of each name on the way to pos finds the member on the way, not an earlier one. */
  ghost predicate Unshadowed(j: Json, pos: Position, caseSensitive: bool)
    requires ValidPosition(j, pos)
    decreases |pos|
  {
    pos != [] ==>
      && (j.Object? ==> FindKey(j.members, j.members[pos[0]].key, caseSensitive) == pos[0])
      && Unshadowed(Child(j, pos[0]), pos[1..], caseSensitive)
  }

  /**
   `decode_pointer_inplace` on the buffer's bytes, with the read index r and the write
   index w. Ordinary bytes are stepped over, not copied down, and the byte for `~1` is
   written one place too far.
   */
  function DecodeLoop(buffer: Text, r: nat, w: nat): Text
    requires w <= r <= |buffer|
    decreases |buffer| - r
  {
    if r == |buffer| then buffer[..w]
    else if buffer[r] != TILDE then DecodeLoop(buffer, r + 1, w + 1)
    else if r + 1 < |buffer| && buffer[r+1] == ZERO then DecodeLoop(buffer[w := TILDE], r + 2, w + 1)
    else if r + 1 < |buffer| && buffer[r+1] == ONE then DecodeLoop(buffer[w+1 := SLASH], r + 2, w + 1)
    else buffer
  }

  function DecodeInPlace(s: Text): Text {
    DecodeLoop(s, 0, 0)
  }
}
