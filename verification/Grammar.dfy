/**
 JSON text, said without the parser: which bytes may stand where, and what they mean. A
 `Node` is one way to derive a text. What RFC 8259 lets stand is `Standard`; `Sound` says
 what the library lets stand, which is more: any byte up to 32 is a blank, a text may hold
 control characters, and four bytes behind `\u` that are not hexadecimal digits are read as
 zero, wherever an escape sequence starts among them.
 */
module Grammar {
  import opened Basics
  import opened Strings
  import opened Sorting
  import opened Json
  import opened Printing
  import opened Unicode
  import Parsing

  // ----- texts

  /** A byte that stands for itself; a two-byte escape sequence; a `\u` group; two groups that are a surrogate pair. */
  datatype Piece =
    | Raw(b: Byte)
    | Short(letter: Byte)
    | Group(digits: Text, code: nat)
    | Pair(high: Text, low: Text, code: nat)

  /** RFC 8259, section 7: what a backslash and a letter stand for. */
  function ShortByte(letter: Byte): Option<Byte> {
    if letter == QUOTE || letter == BACKSLASH || letter == 47 then Some(letter)
    else if [letter] == Ascii("b") then Some(8)
    else if [letter] == Ascii("t") then Some(9)
    else if [letter] == Ascii("n") then Some(10)
    else if [letter] == Ascii("f") then Some(12)
    else if [letter] == Ascii("r") then Some(13)
    else None
  }

  /** A hexadecimal digit, in either case, and its value. */
  predicate Nibble(c: Byte, v: nat) {
    v < 16 && ([c] == Ascii("0123456789abcdef")[v..v+1] || [c] == Ascii("0123456789ABCDEF")[v..v+1])
  }

  ghost predicate Hexadecimal(digits: Text, code: nat) {
    |digits| == 4 && exists a: nat, b: nat, c: nat, d: nat ::
      && Nibble(digits[0], a) && Nibble(digits[1], b) && Nibble(digits[2], c) && Nibble(digits[3], d)
      && code == a * 4096 + b * 256 + c * 16 + d
  }

  /** The library reads as zero what is not hexadecimal. */
  ghost predicate ReadAs(digits: Text, code: nat) {
    || Hexadecimal(digits, code)
    || (|digits| == 4 && code == 0 && forall n :: !Hexadecimal(digits, n))
  }

  ghost predicate PieceSound(p: Piece) {
    match p
    case Raw(b) => b != BACKSLASH
    case Short(letter) => ShortByte(letter).Some?
    case Group(digits, code) => ReadAs(digits, code) && Scalar(code)
    case Pair(high, low, code) =>
      && 0x10000 <= code <= 0x10FFFF
      && Hexadecimal(high, 0xD800 + (code - 0x10000) / 0x400)
      && Hexadecimal(low, 0xDC00 + (code - 0x10000) % 0x400)
  }

  function PieceText(p: Piece): Text {
    match p
    case Raw(b) => [b]
    case Short(letter) => [BACKSLASH, letter]
    case Group(digits, _) => [BACKSLASH, 117] + digits
    case Pair(high, low, _) => [BACKSLASH, 117] + high + [BACKSLASH, 117] + low
  }

  function PieceBytes(p: Piece): Text {
    match p
    case Raw(b) => [b]
    case Short(letter) => if ShortByte(letter).Some? then [ShortByte(letter).value] else []
    case Group(_, code) => if code <= 0x10FFFF then Utf8(code) else []
    case Pair(_, _, code) => if code <= 0x10FFFF then Utf8(code) else []
  }

  function PiecesText(ps: seq<Piece>): Text {
    if ps == [] then [] else PieceText(ps[0]) + PiecesText(ps[1..])
  }

  function PiecesBytes(ps: seq<Piece>): Text {
    if ps == [] then [] else PieceBytes(ps[0]) + PiecesBytes(ps[1..])
  }

  ghost predicate PiecesSound(ps: seq<Piece>) {
    forall i | 0 <= i < |ps| :: PieceSound(ps[i])
  }

  /** What stands between the quotes, and how it is read. */
  datatype Literal = Literal(body: Text, pieces: seq<Piece>)

  /** No quote in it but behind a backslash, where every backslash goes with the byte behind it. */
  predicate Unquoted(body: Text) {
    body != [] ==>
      if body[0] == BACKSLASH then |body| > 1 && Unquoted(body[2..]) else body[0] != QUOTE && Unquoted(body[1..])
  }

  /** The last piece may be a backslash inside and the closing quote, where the four bytes of a `\u` group have split an
   escape sequence. */
  ghost predicate Overhangs(l: Literal) {
    l.pieces != [] && l.pieces[|l.pieces|-1] == Short(QUOTE) && PiecesText(l.pieces) == l.body + [QUOTE]
  }

  ghost predicate LiteralSound(l: Literal) {
    Unquoted(l.body) && PiecesSound(l.pieces) && (PiecesText(l.pieces) == l.body || Overhangs(l))
  }

  /** A C string ends at its first zero. */
  function LiteralText(l: Literal): Text {
    CString(PiecesBytes(l.pieces))
  }

  function SpellLiteral(l: Literal, post: Text): Text {
    [QUOTE] + l.body + ([QUOTE] + post)
  }

  // ----- numbers

  predicate InNumeral(c: Byte) {
    [c] == Ascii("+") || [c] == Ascii("-") || [c] == Ascii(".") || [c] == Ascii("e") || [c] == Ascii("E") ||
      48 <= c <= 57
  }

  /** The bytes that `strtod` is given: all that numbers are made of, up to 63. */
  predicate Run(run: Text, s: Text) {
    && |run| <= 63 && run <= s && (forall i | 0 <= i < |run| :: InNumeral(run[i]))
    && (|run| == 63 || |run| == |s| || !InNumeral(s[|run|]))
  }

  /** n is x without its fraction, or the end of `int` on x's side. */
  predicate Truncated(x: real, n: int) {
    if x >= INT_MAX as real then n == INT_MAX
    else if x <= -2147483648.0 then n == -0x8000_0000
    else if x >= 0.0 then n as real <= x < n as real + 1.0
    else n as real - 1.0 < x <= n as real
  }

  /** strtod takes just this text, of what stands here. */
  ghost predicate NumeralSound(text: Text, n: int, post: Text, strtod: Parsing.Strtod) {
    && text != [] && (text[0] == MINUS || 48 <= text[0] <= 57)
    && exists run :: Run(run, text + post) && strtod(run).0 == |text| && Truncated(strtod(run).1, n)
  }

  // ----- values

  datatype Node =
    | NullWord
    | FalseWord
    | TrueWord
    | Numeral(text: Text, n: int)
    | Quoted(literal: Literal)
    | List(blank: Text, items: seq<Slot>)
    | Record(blank: Text, fields: seq<Field>)

  /** A value with the blanks around it. */
  datatype Slot = Slot(before: Text, node: Node, after: Text)

  /** A name with the blanks around it, and what stands behind the colon. */
  datatype Field = Field(before: Text, name: Literal, between: Text, value: Slot)

  predicate Blank(ws: Text) {
    forall i | 0 <= i < |ws| :: ws[i] <= 32
  }

  /** The text of a node with `post` behind it. */
  function Spell(n: Node, post: Text): Text
    decreases n
  {
    match n
    case NullWord => Ascii("null") + post
    case FalseWord => Ascii("false") + post
    case TrueWord => Ascii("true") + post
    case Numeral(text, _) => text + post
    case Quoted(literal) => SpellLiteral(literal, post)
    case List(blank, items) =>
      [OPEN_BRACKET] + if items == [] then blank + ([CLOSE_BRACKET] + post) else SpellItems(items, post)
    case Record(blank, fields) =>
      [OPEN_BRACE] + if fields == [] then blank + ([CLOSE_BRACE] + post) else SpellFields(fields, post)
  }

  function SpellSlot(slot: Slot, post: Text): Text
    decreases slot
  {
    slot.before + Spell(slot.node, slot.after + post)
  }

  function SpellItems(items: seq<Slot>, post: Text): Text
    requires items != []
    decreases items
  {
    SpellSlot(items[0],
      if |items| == 1 then [CLOSE_BRACKET] + post else [COMMA] + SpellItems(items[1..], post))
  }

  function SpellFields(fields: seq<Field>, post: Text): Text
    requires fields != []
    decreases fields
  {
    SpellField(fields[0],
      if |fields| == 1 then [CLOSE_BRACE] + post else [COMMA] + SpellFields(fields[1..], post))
  }

  function SpellField(f: Field, post: Text): Text
    decreases f
  {
    f.before + SpellLiteral(f.name, f.between + ([COLON] + SpellSlot(f.value, post)))
  }

  function Meaning(n: Node): Json
    decreases n
  {
    match n
    case NullWord => Null
    case FalseWord => False
    case TrueWord => True
    case Numeral(_, n) => Number(n)
    case Quoted(literal) => String(LiteralText(literal))
    case List(_, items) => Array(ItemsMeaning(items))
    case Record(_, fields) => Object(FieldsMeaning(fields))
  }

  function ItemsMeaning(items: seq<Slot>): (r: seq<Json>)
    ensures |r| == |items| && forall i | 0 <= i < |items| :: r[i] == Meaning(items[i].node)
    decreases items
  {
    seq(|items|, i requires 0 <= i < |items| => Meaning(items[i].node))
  }

  function FieldsMeaning(fields: seq<Field>): (r: seq<Member>)
    ensures |r| == |fields|
    ensures forall i | 0 <= i < |fields| :: r[i] == Entry(LiteralText(fields[i].name), Meaning(fields[i].value.node))
    decreases fields
  {
    seq(|fields|, i requires 0 <= i < |fields| => Entry(LiteralText(fields[i].name), Meaning(fields[i].value.node)))
  }

  /** What the library lets stand inside an array or object. */
  ghost predicate Sound(n: Node, strtod: Parsing.Strtod)
    decreases n
  {
    match n
    case Numeral(text, n) => NumeralSound(text, n, [], strtod)
    case Quoted(literal) => LiteralSound(literal)
    case List(blank, items) => Blank(blank) && forall i | 0 <= i < |items| :: SlotSound(items[i], strtod)
    case Record(blank, fields) => Blank(blank) && forall i | 0 <= i < |fields| :: FieldSound(fields[i], strtod)
    case _ => true
  }

  ghost predicate SlotSound(slot: Slot, strtod: Parsing.Strtod)
    decreases slot
  {
    Blank(slot.before) && Sound(slot.node, strtod) && Blank(slot.after)
  }

  ghost predicate FieldSound(f: Field, strtod: Parsing.Strtod)
    decreases f
  {
    Blank(f.before) && LiteralSound(f.name) && Blank(f.between) && SlotSound(f.value, strtod)
  }

  /** ... and in front of `post`, which matters only to a number at the outermost level. */
  ghost predicate SoundBefore(n: Node, post: Text, strtod: Parsing.Strtod) {
    if n.Numeral? then NumeralSound(n.text, n.n, post, strtod) else Sound(n, strtod)
  }

  // ----- whole texts

  const BYTE_ORDER_MARK: Text := [0xEF, 0xBB, 0xBF]

  /** What stands in front of the value: a byte order mark, if more than four bytes are there, and blanks. */
  ghost predicate Opens(mark: Text, blank: Text, content: Text) {
    (mark == [] || (mark == BYTE_ORDER_MARK && |content| > 4)) && Blank(blank)
  }

  /** What stands behind the value: anything, or only blanks of which the last is a zero. */
  predicate Closes(behind: Text, requireNul: bool) {
    requireNul ==> behind != [] && Blank(behind) && behind[|behind|-1] == 0
  }

  /** The content is a text of that value, and `behind` stands behind the value. */
  ghost predicate Derives(content: Text, requireNul: bool, strtod: Parsing.Strtod, j: Json, behind: Text) {
    exists mark, blank, n ::
      && content == mark + (blank + Spell(n, behind)) && Opens(mark, blank, content) && Closes(behind, requireNul)
      && SoundBefore(n, behind, strtod) && Meaning(n) == j && Depth(j) <= Parsing.NESTING_LIMIT
  }
}
