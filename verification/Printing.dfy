/** The text that a tree is printed as, in both formats. */
module Printing {
  import opened Strings
  import opened Json

  const QUOTE: Byte := 34
  const BACKSLASH: Byte := 92
  const COMMA: Byte := 44
  const COLON: Byte := 58
  const OPEN_BRACKET: Byte := 91
  const CLOSE_BRACKET: Byte := 93
  const OPEN_BRACE: Byte := 123
  const CLOSE_BRACE: Byte := 125
  const TAB: Byte := 9
  const NEWLINE: Byte := 10
  const SPACE: Byte := 32
  const MINUS: Byte := 45
  const NULL_TEXT: Text := [110, 117, 108, 108]
  const FALSE_TEXT: Text := [102, 97, 108, 115, 101]
  const TRUE_TEXT: Text := [116, 114, 117, 101]

  /** `%d`. */
  function Decimal(n: int): (r: Text)
    ensures |r| > 0 && NulFree(r)
  {
    if n < 0 then [MINUS] + Digits(-n) else Digits(n)
  }

  /** A digit of `%x`. */
  function HexDigit(d: nat): Byte
    requires d < 16
  {
    if d < 10 then 48 + d else 87 + d
  }

  /** The letter of a two-byte escape sequence, or 0 for a byte that has none. */
  function EscapeLetter(c: Byte): Byte {
    if c == 34 || c == 92 then c
    else if c == 8 then 98
    else if c == 12 then 102
    else if c == 10 then 110
    else if c == 13 then 114
    else if c == 9 then 116
    else 0
  }

  function Escape(c: Byte): (r: Text)
    ensures 1 <= |r| <= 6
    ensures c != 0 ==> NulFree(r)
  {
    if EscapeLetter(c) != 0 then [BACKSLASH, EscapeLetter(c)]
    else if c < 32 then [BACKSLASH, 117, 48, 48, HexDigit(c / 16), HexDigit(c % 16)]
    else [c]
  }

  function EscapeAll(s: Text): (r: Text)
    ensures |r| >= |s|
    ensures NulFree(s) ==> NulFree(r)
  {
    if s == [] then [] else Escape(s[0]) + EscapeAll(s[1..])
  }

  function Quote(s: Text): (r: Text)
    ensures |r| >= 2 && r[0] == QUOTE
    ensures NulFree(s) ==> NulFree(r)
  {
    [QUOTE] + EscapeAll(s) + [QUOTE]
  }

  function Tabs(n: nat): (r: Text)
    ensures |r| == n && NulFree(r)
    ensures forall i | 0 <= i < n :: r[i] == TAB
  {
    seq(n, i => TAB)
  }

  function ItemSeparator(format: bool): Text {
    if format then [COMMA, SPACE] else [COMMA]
  }

  function NameSeparator(format: bool): Text {
    if format then [COLON, TAB] else [COLON]
  }

  function ObjectStart(format: bool): Text {
    if format then [OPEN_BRACE, NEWLINE] else [OPEN_BRACE]
  }

  function ObjectEnd(depth: nat, format: bool): Text {
    (if format then Tabs(depth) else []) + [CLOSE_BRACE]
  }

  function MemberEnd(last: bool, format: bool): Text {
    (if last then [] else [COMMA]) + (if format then [NEWLINE] else [])
  }

  /** `print_value`, where `depth` arrays and objects enclose the value. An item without a type has no text. */
  function Print(j: Json, depth: nat, format: bool): Text
    decreases j, 0
  {
    match j
    case Invalid => []
    case False => FALSE_TEXT
    case True => TRUE_TEXT
    case Null => NULL_TEXT
    case Number(n) => Decimal(n)
    case String(s) => Quote(s)
    case Array(items) => [OPEN_BRACKET] + PrintItems(items, depth + 1, format) + [CLOSE_BRACKET]
    case Object(members, _) =>
      ObjectStart(format) + PrintMembers(members, depth + 1, format) + ObjectEnd(depth, format)
  }

  function PrintItems(items: seq<Json>, depth: nat, format: bool): Text
    decreases items, 0
  {
    if items == [] then []
    else PrintItemAnd(items[0], |items| == 1, depth, format) + PrintItems(items[1..], depth, format)
  }

  function PrintItemAnd(item: Json, last: bool, depth: nat, format: bool): Text
    decreases item, 1
  {
    Print(item, depth, format) + (if last then [] else ItemSeparator(format))
  }

  function PrintMembers(ms: seq<Member>, depth: nat, format: bool): Text
    decreases ms, 0
  {
    if ms == [] then []
    else PrintMember(ms[0], |ms| == 1, depth, format) + PrintMembers(ms[1..], depth, format)
  }

  function PrintMember(m: Member, last: bool, depth: nat, format: bool): Text
    decreases m, 0
  {
    NamePart(m.key, depth, format) + Print(m.value, depth, format) + MemberEnd(last, format)
  }

  function NamePart(key: Text, depth: nat, format: bool): Text {
    (if format then Tabs(depth) else []) + Quote(key) + NameSeparator(format)
  }

  predicate Int32(n: int) {
    -0x8000_0000 <= n < 0x8000_0000
  }

  /** A tree that C data can hold: its texts and names end at their first NUL, its numbers are `int`s. */
  ghost predicate Plain(j: Json) {
    match j
    case Number(n) => Int32(n)
    case String(s) => NulFree(s)
    case Array(items) => PlainItems(items)
    case Object(members, _) => PlainMembers(members)
    case _ => true
  }

  ghost predicate PlainItems(items: seq<Json>) {
    forall i | 0 <= i < |items| :: Plain(items[i])
  }

  ghost predicate PlainMembers(ms: seq<Member>) {
    forall i | 0 <= i < |ms| :: NulFree(ms[i].key) && Plain(ms[i].value)
  }

  lemma MemberText(before: Text, m: Member, last: bool, depth: nat, format: bool)
    ensures before + NamePart(m.key, depth, format) + Print(m.value, depth, format) + MemberEnd(last, format)
      == before + PrintMember(m, last, depth, format)
    ensures |PrintMember(m, last, depth, format)|
      == |NamePart(m.key, depth, format)| + |Print(m.value, depth, format)| + |MemberEnd(last, format)|
    ensures |MemberEnd(last, format)| == (if format then 1 else 0) + (if last then 0 else 1)
    ensures NulFree(MemberEnd(last, format))
  {
    hide Print, NamePart;
  }

  lemma {:induction false} PrintNulFree(j: Json, depth: nat, format: bool)
    requires Plain(j)
    ensures NulFree(Print(j, depth, format))
    decreases j, 0
  {
    match j
    case Array(items) => PrintItemsNulFree(items, depth + 1, format);
    case Object(members, _) => PrintMembersNulFree(members, depth + 1, format);
    case _ =>
  }

  lemma {:induction false} PrintItemsNulFree(items: seq<Json>, depth: nat, format: bool)
    requires PlainItems(items)
    ensures NulFree(PrintItems(items, depth, format))
    decreases items
  {
    if items != [] {
      PrintNulFree(items[0], depth, format);
      PrintItemsNulFree(items[1..], depth, format);
    }
  }

  lemma {:induction false} PrintMembersNulFree(ms: seq<Member>, depth: nat, format: bool)
    requires PlainMembers(ms)
    ensures NulFree(PrintMembers(ms, depth, format))
    decreases ms
  {
    if ms != [] {
      PrintNulFree(ms[0].value, depth, format);
      PrintMembersNulFree(ms[1..], depth, format);
    }
  }

  /** How much longer the escape sequence is than the byte: what the sizing loop of `print_string_ptr` counts. */
  function Extra(c: Byte): nat {
    if EscapeLetter(c) != 0 then 1 else if c < 32 then 5 else 0
  }

  function ExtraAll(s: Text): nat {
    if s == [] then 0 else Extra(s[0]) + ExtraAll(s[1..])
  }

  lemma {:induction false} EscapedLength(s: Text)
    ensures |EscapeAll(s)| == |s| + ExtraAll(s)
    ensures ExtraAll(s) == 0 ==> EscapeAll(s) == s
  {
    if s != [] {
      EscapedLength(s[1..]);
    }
  }

  lemma EscapeHead(s: Text)
    requires s != []
    ensures EscapeAll(s) == Escape(s[0]) + EscapeAll(s[1..])
  {}

  lemma EscapeNothing()
    ensures EscapeAll([]) == []
  {}

  lemma QuoteLength(s: Text)
    ensures |Quote(s)| == |EscapeAll(s)| + 2
  {}

  lemma ItemsHead(items: seq<Json>, depth: nat, format: bool)
    requires items != []
    ensures PrintItems(items, depth, format) ==
      PrintItemAnd(items[0], |items| == 1, depth, format) + PrintItems(items[1..], depth, format)
    ensures NoInvalid(Array(items)) <==> NoInvalid(items[0]) && NoInvalid(Array(items[1..]))
    ensures PlainItems(items) ==> Plain(items[0]) && PlainItems(items[1..])
  {
    assert items == [items[0]] + items[1..];
  }

  lemma NoItems(depth: nat, format: bool)
    ensures PrintItems([], depth, format) == [] && NoInvalid(Array([]))
  {}

  lemma MembersHead(ms: seq<Member>, depth: nat, format: bool)
    requires ms != []
    ensures PrintMembers(ms, depth, format) ==
      PrintMember(ms[0], |ms| == 1, depth, format) + PrintMembers(ms[1..], depth, format)
    ensures NoInvalid(Object(ms)) <==> NoInvalid(ms[0].value) && NoInvalid(Object(ms[1..]))
    ensures PlainMembers(ms) ==> NulFree(ms[0].key) && Plain(ms[0].value) && PlainMembers(ms[1..])
  {
    assert ms == [ms[0]] + ms[1..];
  }

  lemma NoMembers(depth: nat, format: bool)
    ensures PrintMembers([], depth, format) == [] && NoInvalid(Object([]))
  {}

  /** The pieces in which `print_object` writes an object are its text. */
  lemma ArrayText(before: Text, items: seq<Json>, depth: nat, format: bool)
    ensures before + [OPEN_BRACKET] + PrintItems(items, depth + 1, format) + [CLOSE_BRACKET] ==
      before + Print(Array(items), depth, format)
    ensures |Print(Array(items), depth, format)| == |PrintItems(items, depth + 1, format)| + 2
  {
    hide PrintItems;
  }

  lemma ObjectText(before: Text, ms: seq<Member>, depth: nat, format: bool)
    ensures before + ObjectStart(format) + PrintMembers(ms, depth + 1, format) + ObjectEnd(depth, format)
      == before + Print(Object(ms), depth, format)
    ensures |Print(Object(ms), depth, format)|
      == |ObjectStart(format)| + |PrintMembers(ms, depth + 1, format)| + |ObjectEnd(depth, format)|
    ensures |ObjectStart(format)| == (if format then 2 else 1)
    ensures |ObjectEnd(depth, format)| == (if format then depth else 0) + 1
  {
    hide PrintMembers;
  }
}
