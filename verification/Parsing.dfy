/**
 The parser as a function of what is left of the input. A position in the input is
 given by the number of bytes from there to its end.
 */
module Parsing {
  import opened Basics
  import opened Strings
  import opened Sorting
  import opened Json
  import opened Printing
  import opened Unicode

  const NESTING_LIMIT: nat := 1000

  /** `strtod`: how many bytes it takes, and their value. */
  type Strtod = f: Text -> (nat, real) | forall t: Text :: f(t).0 <= |t| witness (t: Text) => (0, 0.0)

  /** A value or text and what is left behind it; a failure with the bytes left where it was noticed; or a read past the
   end. */
  datatype Outcome<+T> = Ok(value: T, rest: Text) | Fail(left: nat) | Overrun

  /** Less than s is left behind the value; a failure lies within s. */
  ghost predicate Within<T>(r: Outcome<T>, s: Text) {
    && (r.Ok? ==> |r.rest| < |s|)
    && (r.Fail? ==> r.left <= |s|)
  }

  predicate HasPrefix(s: Text, p: Text) {
    |p| <= |s| && s[..|p|] == p
  }

  function DropSpace(s: Text): (r: Text)
    ensures |r| <= |s|
    ensures r != [] ==> r[0] > 32
  {
    if s != [] && s[0] <= 32 then DropSpace(s[1..]) else s
  }

  /** `buffer_skip_whitespace`: if nothing else is left it steps back onto the last byte. Zero counts as space. */
  function SkipSpace(s: Text): (r: Text)
    ensures |r| <= |s|
    ensures s != [] <==> r != []
  {
    var d := DropSpace(s);
    if s != [] && d == [] then s[|s|-1..] else d
  }

  predicate NumberByte(c: Byte) {
    48 <= c <= 57 || c == 43 || c == 45 || c == 101 || c == 69 || c == 46
  }

  /** What `parse_number` copies for `strtod`: at most `room` number characters. */
  function NumberText(s: Text, room: nat): (r: Text)
    ensures |r| <= |s| && r == s[..|r|]
  {
    if room > 0 && s != [] && NumberByte(s[0]) then [s[0]] + NumberText(s[1..], room - 1) else []
  }

  const INT_MIN: int := -0x8000_0000

  /** `valueint`: saturated at the ends of `int`, and otherwise truncated toward zero. */
  function ToInt(x: real): (n: int)
    ensures Int32(n)
  {
    if x >= INT_MAX as real then INT_MAX
    else if x <= INT_MIN as real then INT_MIN
    else if x >= 0.0 then x.Floor
    else -(-x).Floor
  }

  function ParseNumber(s: Text, strtod: Strtod): (r: Outcome<Json>)
    ensures Within(r, s)
  {
    var (taken, value) := strtod(NumberText(s, 63));
    if taken == 0 then Fail(|s|) else Ok(Number(ToInt(value)), s[taken..])
  }

  /** The sizing pass of `parse_string`: the closing quote, or the length if there is none. */
  function ClosingQuote(s: Text): (e: nat)
    ensures e <= |s|
    ensures e < |s| ==> s[e] == QUOTE
  {
    if s == [] || s[0] == QUOTE then 0
    else if s[0] == BACKSLASH then if |s| == 1 then 1 else 2 + ClosingQuote(s[2..])
    else 1 + ClosingQuote(s[1..])
  }

  /** The bytes that the sizing pass counts: an escape sequence counts once. */
  function Tokens(s: Text): nat {
    if s == [] || s[0] == QUOTE then 0
    else if s[0] == BACKSLASH then if |s| == 1 then 1 else 1 + Tokens(s[2..])
    else 1 + Tokens(s[1..])
  }

  datatype Decoded = Bytes(bytes: Text) | Malformed(left: nat)

  function Prepend(bytes: Text, d: Decoded): Decoded {
    if d.Bytes? then Bytes(bytes + d.bytes) else d
  }

  /** The byte that a two-byte escape sequence stands for, by its letter; 0 for none. */
  function Unescape(c: Byte): Byte {
    if c == 98 then 8
    else if c == 102 then 12
    else if c == 110 then 10
    else if c == 114 then 13
    else if c == 116 then 9
    else if c == 34 || c == 92 || c == 47 then c
    else 0
  }

  /** The escape sequence at the start of s, if the parser knows it; the closing quote is `end` bytes ahead. */
  function Sequence(s: Text, end: nat): (r: Option<Conversion>)
    requires 0 < end < |s|
    ensures r.Some? ==> 1 <= |r.value.bytes| <= 4 && 2 <= r.value.consumed <= |s|
  {
    if s[1] == 117 then Utf16(s, end)
    else if Unescape(s[1]) != 0 then Some(Conversion([Unescape(s[1])], 2))
    else None
  }

  /** The decoding pass, where the closing quote is `end` bytes ahead. */
  function Decode(s: Text, end: int): (d: Decoded)
    requires end < |s|
    ensures d.Malformed? ==> d.left <= |s|
    decreases |s|
  {
    if end <= 0 then Bytes([])
    else if s[0] != BACKSLASH then Prepend([s[0]], Decode(s[1..], end - 1))
    else
      var u := Sequence(s, end);
      if u.None? then Malformed(|s|) else Prepend(u.value.bytes, Decode(s[u.value.consumed..], end - u.value.consumed))
  }

  /** `parse_string`. The result is a C string: it ends at the first zero that was decoded. */
  function ParseString(s: Text): (r: Outcome<Text>)
    ensures Within(r, s)
    ensures r.Overrun? <==> s == []
  {
    if s == [] then Overrun
    else if s[0] != QUOTE then Fail(|s| - 1)
    else
      var end := ClosingQuote(s[1..]);
      if end == |s| - 1 then Fail(|s| - 1)
      else
        var d := Decode(s[1..], end);
        if d.Malformed? then Fail(d.left) else Ok(CString(d.bytes), s[end + 2..])
  }

  /** `parse_value` inside `depth` arrays and objects. */
  function ParseValue(s: Text, depth: nat, strtod: Strtod): (r: Outcome<Json>)
    ensures Within(r, s)
    decreases |s|, 1
  {
    if HasPrefix(s, NULL_TEXT) then Ok(Null, s[4..])
    else if HasPrefix(s, FALSE_TEXT) then Ok(False, s[5..])
    else if HasPrefix(s, TRUE_TEXT) then Ok(True, s[4..])
    else if s == [] then Fail(0)
    else if s[0] == QUOTE then
      var t := ParseString(s);
      if t.Ok? then Ok(String(t.value), t.rest) else if t.Fail? then Fail(t.left) else Overrun
    else if s[0] == MINUS || 48 <= s[0] <= 57 then ParseNumber(s, strtod)
    else if s[0] == OPEN_BRACKET then ParseArray(s, depth, strtod)
    else if s[0] == OPEN_BRACE then ParseObject(s, depth, strtod)
    else Fail(|s|)
  }

  function ParseArray(s: Text, depth: nat, strtod: Strtod): (r: Outcome<Json>)
    requires s != [] && s[0] == OPEN_BRACKET
    ensures Within(r, s)
    decreases |s|, 0
  {
    if depth >= NESTING_LIMIT then Fail(|s|)
    else
      var t := SkipSpace(s[1..]);
      if t != [] && t[0] == CLOSE_BRACKET then Ok(Array([]), t[1..])
      else if t == [] then Fail(1)
      else
        var items := ParseElements(t, depth + 1, strtod);
        if items.Ok? then Ok(Array(items.value), items.rest) else if items.Fail? then Fail(items.left) else Overrun
  }

  /** The loop of `parse_array`, from behind the bracket or a comma. */
  function ParseElements(s: Text, depth: nat, strtod: Strtod): (r: Outcome<seq<Json>>)
    ensures Within(r, s)
    decreases |s|, 2
  {
    var v := ParseValue(SkipSpace(s), depth, strtod);
    if v.Fail? then Fail(v.left)
    else if v.Overrun? then Overrun
    else
      var t := SkipSpace(v.rest);
      if t != [] && t[0] == COMMA then
        var more := ParseElements(t[1..], depth, strtod);
        if more.Ok? then Ok([v.value] + more.value, more.rest) else more
      else if t != [] && t[0] == CLOSE_BRACKET then Ok([v.value], t[1..])
      else Fail(|t|)
  }

  function ParseObject(s: Text, depth: nat, strtod: Strtod): (r: Outcome<Json>)
    requires s != [] && s[0] == OPEN_BRACE
    ensures Within(r, s)
    decreases |s|, 0
  {
    if depth >= NESTING_LIMIT then Fail(|s|)
    else
      var t := SkipSpace(s[1..]);
      if t != [] && t[0] == CLOSE_BRACE then Ok(Object([]), t[1..])
      else if t == [] then Fail(1)
      else
        var members := ParseMembers(t, depth + 1, strtod);
        if members.Ok? then Ok(Object(members.value), members.rest)
          else if members.Fail? then Fail(members.left) else Overrun
  }

  /** A member's name, up to and with the colon. */
  function ParseName(s: Text): (r: Outcome<Text>)
    ensures Within(r, s)
    ensures r.Overrun? <==> s == []
  {
    var name := ParseString(SkipSpace(s));
    if !name.Ok? then name
    else
      var t := SkipSpace(name.rest);
      if t == [] || t[0] != COLON then Fail(|t|) else Ok(name.value, t[1..])
  }

  /** One member: name, colon and value. */
  function ParseMember(s: Text, depth: nat, strtod: Strtod): (r: Outcome<Member>)
    ensures Within(r, s)
    decreases |s|, 2
  {
    var name := ParseName(s);
    if name.Fail? then Fail(name.left)
    else if name.Overrun? then Overrun
    else
      var v := ParseValue(SkipSpace(name.rest), depth, strtod);
      if v.Fail? then Fail(v.left)
      else if v.Overrun? then Overrun
      else Ok(Entry(name.value, v.value), v.rest)
  }

  /** The loop of `parse_object`, from behind the brace or a comma. */
  function ParseMembers(s: Text, depth: nat, strtod: Strtod): (r: Outcome<seq<Member>>)
    ensures Within(r, s)
    decreases |s|, 3
  {
    var m := ParseMember(s, depth, strtod);
    if m.Fail? then Fail(m.left)
    else if m.Overrun? then Overrun
    else
      var t := SkipSpace(m.rest);
      if t != [] && t[0] == COMMA then
        var more := ParseMembers(t[1..], depth, strtod);
        if more.Ok? then Ok([m.value] + more.value, more.rest) else more
      else if t != [] && t[0] == CLOSE_BRACE then Ok([m.value], t[1..])
      else Fail(|t|)
  }

  function SkipBom(s: Text): (r: Text)
    ensures |r| <= |s|
  {
    if |s| > 4 && s[..3] == [0xEF, 0xBB, 0xBF] then s[3..] else s
  }

  /** `cJSON_ParseWithLengthOpts`: what is left is where parsing ended, and a failure is never behind the last byte. */
  function Parse(content: Text, requireNul: bool, strtod: Strtod): (r: Outcome<Json>)
    ensures r.Ok? ==> |r.rest| < |content|
    ensures r.Fail? && content != [] ==> 1 <= r.left <= |content|
  {
    if content == [] then Fail(0)
    else
      var v := ParseValue(SkipSpace(SkipBom(content)), 0, strtod);
      if v.Fail? then Fail(if v.left == 0 then 1 else v.left)
      else if v.Overrun? then Overrun
      else if !requireNul then v
      else
        var t := SkipSpace(v.rest);
        if t == [] || t[0] != 0 then Fail(if t == [] then 1 else |t|) else Ok(v.value, t)
  }
}
