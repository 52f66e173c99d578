/** Parsing undoes printing, in both formats. */
module ParsePrint {
  import opened Basics
  import opened Strings
  import opened Tails
  import opened Json
  import opened Printing
  import opened Unicode
  import opened Parsing
  import opened ParsingProofs

  /** What is asked of the C library: `strtod` reads back what `%d` writes. */
  ghost predicate ReadsDecimals(strtod: Strtod) {
    forall n {:trigger Decimal(n)} | Int32(n) :: strtod(Decimal(n)) == (|Decimal(n)|, n as real)
  }

  /** The value of a sequence of digits. */
  function DigitsValue(s: Text): int {
    if s == [] then 0 else DigitsValue(s[..|s|-1]) * 10 + (s[|s|-1] as int - 48)
  }

  /** A reader of whole numbers, which meets the demand. */
  function ReadWhole(s: Text): (nat, real) {
    if s != [] && s[0] == MINUS then (|s|, (-DigitsValue(s[1..])) as real) else (|s|, DigitsValue(s) as real)
  }

  lemma {:induction false} DigitsReadBack(n: nat)
    ensures DigitsValue(Digits(n)) == n
  {
    if n >= 10 {
      DigitsReadBack(n / 10);
      assert Digits(n)[..|Digits(n)|-1] == Digits(n / 10);
    } else {
      assert Digits(n)[..0] == [];
    }
  }

  lemma ReadWholeReadsDecimals()
    ensures ReadsDecimals(ReadWhole)
  {
    forall n | Int32(n)
      ensures ReadWhole(Decimal(n)) == (|Decimal(n)|, n as real)
    {
      if n < 0 {
        DigitsReadBack(-n);
        assert Decimal(n)[1..] == Digits(-n);
      } else {
        DigitsReadBack(n);
      }
    }
  }

  /** What may stand behind a number. */
  predicate Ends(post: Text) {
    post == [] || !NumberByte(post[0])
  }

  lemma {:induction false} NumberTextOf(digits: Text, post: Text, room: nat)
    requires (forall i | 0 <= i < |digits| :: NumberByte(digits[i])) && |digits| <= room && Ends(post)
    ensures NumberText(digits + post, room) == digits
  {
    if digits == [] {
      assert digits + post == post;
    } else {
      NumberTextOf(digits[1..], post, room - 1);
      assert (digits + post)[1..] == digits[1..] + post;
    }
  }

  lemma {:induction false} DigitsLength(n: nat, k: nat)
    requires k > 0 && n < Power10(k)
    ensures |Digits(n)| <= k
    decreases k
  {
    if n >= 10 {
      DigitsLength(n / 10, k - 1);
    }
  }

  function Power10(k: nat): nat {
    if k == 0 then 1 else 10 * Power10(k - 1)
  }

  lemma NumberBack(n: int, post: Text, strtod: Strtod)
    requires Int32(n) && ReadsDecimals(strtod) && Ends(post)
    ensures ParseNumber(Decimal(n) + post, strtod) == Ok(Number(n), post)
  {
    hide NumberText, Digits;
    var t := Decimal(n);
    assert Power10(10) == 10_000_000_000;
    DigitsLength(if n < 0 then -n else n, 10);
    NumberTextOf(t, post, 63);
    assert strtod(t) == (|t|, n as real);
    assert (t + post)[|t|..] == post;
  }

  lemma {:induction false} CStringWhole(s: Text)
    requires NulFree(s)
    ensures CString(s) == s
  {
    if s != [] {
      CStringWhole(s[1..]);
    }
  }

  /** The literal behind the opening quote. */
  function Literal(s: Text, post: Text): (r: Text)
    ensures |r| > |EscapeAll(s)|
  {
    EscapeAll(s) + [QUOTE] + post
  }

  lemma LiteralHead(s: Text, post: Text)
    requires s != []
    ensures Literal(s, post) == Escape(s[0]) + Literal(s[1..], post)
  {}

  /** One escaped byte is one byte for both passes. */
  lemma EscapeBack(c: Byte, rest: Text, end: nat)
    requires c != 0 && end == ClosingQuote(rest) < |rest|
    ensures ClosingQuote(Escape(c) + rest) == |Escape(c)| + end
    ensures Decode(Escape(c) + rest, |Escape(c)| + end) == Prepend([c], Decode(rest, end))
  {
    var e := Escape(c);
    var s := e + rest;
    assert s[|e|..] == rest;
    if EscapeLetter(c) != 0 {
      assert Unescape(EscapeLetter(c)) == c;
    } else if c < 32 {
      ControlBack(c, rest, end);
    } else {
      assert s[1..] == rest;
    }
  }

  lemma {:induction false} PlainClosing(p: Text, rest: Text)
    requires forall i | 0 <= i < |p| :: p[i] != QUOTE && p[i] != BACKSLASH
    ensures ClosingQuote(p + rest) == |p| + ClosingQuote(rest)
  {
    if p == [] {
      assert p + rest == rest;
    } else {
      PlainClosing(p[1..], rest);
      assert (p + rest)[1..] == p[1..] + rest;
    }
  }

  lemma ControlBack(c: Byte, rest: Text, end: nat)
    requires 0 < c < 32 && EscapeLetter(c) == 0 && end == ClosingQuote(rest) < |rest|
    ensures ClosingQuote(Escape(c) + rest) == 6 + end
    ensures Decode(Escape(c) + rest, 6 + end) == Prepend([c], Decode(rest, end))
  {
    hide ClosingQuote, Decode, Sequence;
    var s := Escape(c) + rest;
    ControlSequence(c, rest, end);
    DecodeSequenceStep(s, 6 + end);
  }

  lemma ControlSequence(c: Byte, rest: Text, end: nat)
    requires 0 < c < 32 && EscapeLetter(c) == 0 && end == ClosingQuote(rest) < |rest|
    ensures var s := Escape(c) + rest;
      && |s| == 6 + |rest| && s[0] == BACKSLASH && s[6..] == rest
      && ClosingQuote(s) == 6 + end && Sequence(s, 6 + end) == Some(Conversion([c], 6))
  {
    var digits := [48, 48, HexDigit(c / 16), HexDigit(c % 16)];
    var s := Escape(c) + rest;
    assert s == [BACKSLASH, 117] + digits + rest;
    assert s[2..] == digits + rest && s[6..] == rest;
    assert ClosingQuote(s) == 2 + ClosingQuote(s[2..]);
    hide ClosingQuote;
    PlainClosing(digits, rest);
    ControlCode(c, rest);
  }

  lemma ControlCode(c: Byte, rest: Text)
    requires 0 < c < 32
    ensures Hex4([48, 48, HexDigit(c / 16), HexDigit(c % 16)] + rest) == c && Utf8(c) == [c]
  {}

  lemma DecodeSequenceStep(s: Text, end: nat)
    requires 0 < end < |s| && s[0] == BACKSLASH && Sequence(s, end).Some?
    ensures var u := Sequence(s, end).value;
      Decode(s, end) == Prepend(u.bytes, Decode(s[u.consumed..], end - u.consumed))
  {}

  lemma {:induction false} LiteralBack(s: Text, post: Text)
    requires NulFree(s)
    ensures ClosingQuote(Literal(s, post)) == |EscapeAll(s)|
    ensures Decode(Literal(s, post), |EscapeAll(s)|) == Bytes(s)
  {
    if s == [] {
      assert Literal(s, post)[0] == QUOTE;
    } else {
      hide ClosingQuote, Decode, Escape, EscapeAll, Literal;
      LiteralHead(s, post);
      EscapeHead(s);
      LiteralBack(s[1..], post);
      EscapeBack(s[0], Literal(s[1..], post), |EscapeAll(s[1..])|);
      assert s == [s[0]] + s[1..];
    }
  }

  lemma StringBack(s: Text, post: Text)
    requires NulFree(s)
    ensures ParseString(Quote(s) + post) == Ok(s, post)
  {
    hide EscapeAll, ClosingQuote, Decode;
    var t := Quote(s) + post;
    assert t[1..] == Literal(s, post);
    LiteralBack(s, post);
    CStringWhole(s);
    assert t[|EscapeAll(s)| + 2..] == post;
  }

  predicate Space(ws: Text) {
    forall i | 0 <= i < |ws| :: ws[i] <= 32
  }

  /** Text that starts with something visible. */
  predicate Visible(s: Text) {
    s != [] && s[0] > 32
  }

  lemma {:induction false} SkipAhead(ws: Text, t: Text)
    requires Space(ws) && Visible(t)
    ensures SkipSpace(ws + t) == t
  {
    if ws == [] {
      assert ws + t == t;
    } else {
      SkipAhead(ws[1..], t);
      assert (ws + t)[1..] == ws[1..] + t;
    }
  }

  lemma SkipNothing(t: Text)
    requires Visible(t)
    ensures SkipSpace(t) == t
  {
    SkipAhead([], t);
    assert [] + t == t;
  }

  /** The first byte of a value's text. */
  lemma PrintStart(j: Json, depth: nat, format: bool)
    requires !j.Invalid?
    ensures Visible(Print(j, depth, format))
    ensures var c := Print(j, depth, format)[0]; c != CLOSE_BRACKET && c != CLOSE_BRACE && c != 0xEF
  {}

  /** What parsing a value's text gives, inside `depth` arrays and objects and in front of anything that ends a number.
   */
  ghost predicate Back(j: Json, indent: nat, format: bool, depth: nat, strtod: Strtod, post: Text) {
    ParseValue(Print(j, indent, format) + post, depth, strtod) == Ok(j, post)
  }

  lemma {:induction false} ValueBack(j: Json, indent: nat, format: bool, depth: nat, strtod: Strtod, post: Text)
    requires GoodTree(j, depth) && ReadsDecimals(strtod) && Ends(post)
    ensures Back(j, indent, format, depth, strtod, post)
    decreases j, 1
  {
    hide ParseValue, Quote, Decimal, ReadsDecimals, Ends;
    match j
    case Null => ConstantsBack(depth, strtod, post);
    case False => ConstantsBack(depth, strtod, post);
    case True => ConstantsBack(depth, strtod, post);
    case Number(n) =>
      NumberBack(n, post, strtod);
      NumberStart(n, post, depth, strtod);
    case String(s) =>
      StringBack(s, post);
      QuoteLength(s);
      ByFirstByte(Quote(s) + post, depth, strtod);
    case Array(items) => ArrayBack(items, indent, format, depth, strtod, post);
    case Object(members, tail) =>
      assert tail == Last;
      ObjectBack(members, indent, format, depth, strtod, post);
  }

  lemma ConstantsBack(depth: nat, strtod: Strtod, post: Text)
    ensures ParseValue(NULL_TEXT + post, depth, strtod) == Ok(Null, post)
    ensures ParseValue(FALSE_TEXT + post, depth, strtod) == Ok(False, post)
    ensures ParseValue(TRUE_TEXT + post, depth, strtod) == Ok(True, post)
  {
    assert (NULL_TEXT + post)[4..] == post && (NULL_TEXT + post)[..4] == NULL_TEXT;
    assert (FALSE_TEXT + post)[5..] == post && (FALSE_TEXT + post)[..5] == FALSE_TEXT && (FALSE_TEXT + post)[0] == 102;
    assert (TRUE_TEXT + post)[4..] == post && (TRUE_TEXT + post)[..4] == TRUE_TEXT && (TRUE_TEXT + post)[0] == 116;
  }

  lemma NumberStart(n: int, post: Text, depth: nat, strtod: Strtod)
    ensures ParseValue(Decimal(n) + post, depth, strtod) == ParseNumber(Decimal(n) + post, strtod)
  {
    hide ParseNumber;
    ByFirstByte(Decimal(n) + post, depth, strtod);
  }

  /** Which parser takes over, by the first byte. */
  lemma ByFirstByte(s: Text, depth: nat, strtod: Strtod)
    requires s != []
    ensures s[0] == MINUS || 48 <= s[0] <= 57 ==> ParseValue(s, depth, strtod) == ParseNumber(s, strtod)
    ensures s[0] == QUOTE && ParseString(s).Ok? ==>
      ParseValue(s, depth, strtod) == Ok(String(ParseString(s).value), ParseString(s).rest)
    ensures s[0] == OPEN_BRACKET ==> ParseValue(s, depth, strtod) == ParseArray(s, depth, strtod)
    ensures s[0] == OPEN_BRACE ==> ParseValue(s, depth, strtod) == ParseObject(s, depth, strtod)
  {
    hide ParseNumber, ParseString, ParseArray, ParseObject;
    assert HasPrefix(s, NULL_TEXT) ==> s[..4][0] == s[0];
    assert HasPrefix(s, FALSE_TEXT) ==> s[..5][0] == s[0];
    assert HasPrefix(s, TRUE_TEXT) ==> s[..4][0] == s[0];
  }

  lemma {:induction false} ArrayBack(items: seq<Json>, indent: nat, format: bool, depth: nat, strtod: Strtod,
      post: Text)
    requires GoodTree(Array(items), depth) && ReadsDecimals(strtod)
    ensures Back(Array(items), indent, format, depth, strtod, post)
    decreases items, 1
  {
    hide PrintItems, ParseElements, SkipSpace, NoInvalid, Plain, ReadsDecimals, ParseValue;
    var inner := ItemsText(items, indent + 1, format, post);
    var s := [OPEN_BRACKET] + inner;
    assert Print(Array(items), indent, format) + post == s;
    assert s[1..] == inner;
    ByFirstByte(s, depth, strtod);
    if items == [] {
      NoItems(indent + 1, format);
      assert inner == [CLOSE_BRACKET] + post;
      SkipNothing(inner);
      assert inner[1..] == post;
    } else {
      GoodItems(items, depth);
      ItemsHead(items, indent + 1, format);
      NotInvalid(items[0], depth + 1);
      PrintStart(items[0], indent + 1, format);
      assert inner[0] == Print(items[0], indent + 1, format)[0];
      SkipNothing(inner);
      ElementsBack(items, [], indent + 1, format, depth + 1, strtod, post);
      assert [] + inner == inner;
    }
  }

  lemma GoodItems(items: seq<Json>, depth: nat)
    requires GoodTree(Array(items), depth) && items != []
    ensures depth < NESTING_LIMIT && GoodTrees(items, depth + 1)
  {
    assert PlainItems(items);
    forall i | 0 <= i < |items|
      ensures GoodTree(items[i], depth + 1)
    {
      assert Plain(items[i]);
      assert Depth(items[i]) <= DeepestItem(items);
    }
  }

  lemma NotInvalid(j: Json, depth: nat)
    requires GoodTree(j, depth)
    ensures !j.Invalid?
  {}

  lemma LastElement(s: Text, depth: nat, strtod: Strtod, v: Json, after: Text)
    requires ParseValue(SkipSpace(s), depth, strtod) == Ok(v, after)
    requires SkipSpace(after) == after && after != [] && after[0] == CLOSE_BRACKET
    ensures ParseElements(s, depth, strtod) == Ok([v], after[1..])
  {
    hide ParseValue, SkipSpace;
  }

  lemma OneMoreElement(s: Text, depth: nat, strtod: Strtod, v: Json, after: Text, more: seq<Json>, post: Text)
    requires ParseValue(SkipSpace(s), depth, strtod) == Ok(v, after)
    requires SkipSpace(after) == after && after != [] && after[0] == COMMA
    requires ParseElements(after[1..], depth, strtod) == Ok(more, post)
    ensures ParseElements(s, depth, strtod) == Ok([v] + more, post)
  {
    hide ParseValue, SkipSpace;
  }

  /** The elements, the bracket and what is behind them. */
  function ItemsText(items: seq<Json>, indent: nat, format: bool, post: Text): Text {
    PrintItems(items, indent, format) + [CLOSE_BRACKET] + post
  }

  function ItemGap(format: bool): Text {
    if format then [SPACE] else []
  }

  function AfterItem(rest: seq<Json>, indent: nat, format: bool, post: Text): Text {
    if rest == [] then [CLOSE_BRACKET] + post else [COMMA] + (ItemGap(format) + ItemsText(rest, indent, format, post))
  }

  lemma ItemsTextHead(items: seq<Json>, indent: nat, format: bool, post: Text)
    requires items != []
    ensures ItemsText(items, indent, format, post) ==
      Print(items[0], indent, format) + AfterItem(items[1..], indent, format, post)
  {
    hide PrintItems, Print, ItemSeparator, ItemGap;
    ItemsHead(items, indent, format);
    var p, r := Print(items[0], indent, format), PrintItems(items[1..], indent, format);
    if |items| == 1 {
      NoItems(indent, format);
      assert items[1..] == [];
      LastRegroup(p, [CLOSE_BRACKET], post);
    } else {
      SeparatorParts(format);
      ItemsRegroup(p, [COMMA], ItemGap(format), r, [CLOSE_BRACKET], post);
    }
  }

  lemma SeparatorParts(format: bool)
    ensures ItemSeparator(format) == [COMMA] + ItemGap(format)
    ensures NameSeparator(format) == [COLON] + if format then [TAB] else []
  {}

  lemma LastRegroup(p: Text, c: Text, post: Text)
    ensures p + [] + [] + c + post == p + (c + post)
  {}

  lemma ItemsRegroup(p: Text, comma: Text, gap: Text, r: Text, c: Text, post: Text)
    ensures p + (comma + gap) + r + c + post == p + (comma + (gap + (r + c + post)))
  {}

  lemma {:induction false} ElementsBack(items: seq<Json>, ws: Text, indent: nat, format: bool, depth: nat,
      strtod: Strtod, post: Text)
    requires items != [] && GoodTrees(items, depth) && ReadsDecimals(strtod) && Space(ws)
    ensures ParseElements(ws + ItemsText(items, indent, format, post), depth, strtod) == Ok(items, post)
    decreases items, 0
  {
    hide ItemsText, Print, ParseValue, SkipSpace, GoodTree, ReadsDecimals, ParseElements;
    var item, rest := items[0], items[1..];
    var after := AfterItem(rest, indent, format, post);
    var s := Print(item, indent, format) + after;
    ItemsTextHead(items, indent, format, post);
    NotInvalid(item, depth);
    PrintStart(item, indent, format);
    SkipAhead(ws, s);
    ValueBack(item, indent, format, depth, strtod, after);
    SkipNothing(after);
    assert items == [item] + rest;
    if rest == [] {
      assert after[1..] == post && items == [item];
      LastElement(ws + s, depth, strtod, item, after);
    } else {
      ElementsBack(rest, ItemGap(format), indent, format, depth, strtod, post);
      assert after[1..] == ItemGap(format) + ItemsText(rest, indent, format, post);
      OneMoreElement(ws + s, depth, strtod, item, after, rest, post);
    }
  }

  /** The brace that ends an object, with its indentation. */
  function ObjectEnd(indent: nat, format: bool, post: Text): Text {
    (if format then Tabs(indent) else []) + [CLOSE_BRACE] + post
  }

  function MembersText(ms: seq<Member>, indent: nat, format: bool, post: Text): Text
  {
    PrintMembers(ms, indent + 1, format) + ObjectEnd(indent, format, post)
  }

  function LineEnd(format: bool): Text {
    if format then [NEWLINE] else []
  }

  function Indentation(indent: nat, format: bool): Text {
    if format then Tabs(indent) else []
  }

  /** What follows a member's value. */
  function AfterMember(rest: seq<Member>, indent: nat, format: bool, post: Text): Text {
    if rest == [] then LineEnd(format) + ObjectEnd(indent, format, post)
    else [COMMA] + (LineEnd(format) + MembersText(rest, indent, format, post))
  }

  /** What follows a member's name. */
  function AfterName(m: Member, rest: seq<Member>, indent: nat, format: bool, post: Text): Text {
    [COLON] + ((if format then [TAB] else []) +
      (Print(m.value, indent + 1, format) + AfterMember(rest, indent, format, post)))
  }

  lemma MembersTextHead(ms: seq<Member>, indent: nat, format: bool, post: Text)
    requires ms != []
    ensures MembersText(ms, indent, format, post)
      == Indentation(indent + 1, format) + (Quote(ms[0].key) + AfterName(ms[0], ms[1..], indent, format, post))
  {
    hide PrintMembers, Print, Quote, ObjectEnd, Tabs, MemberEnd, NameSeparator, AfterMember;
    MembersHead(ms, indent + 1, format);
    var i, q, p := Indentation(indent + 1, format), Quote(ms[0].key), Print(ms[0].value, indent + 1, format);
    var m, r, e := MemberEnd(|ms| == 1, format), PrintMembers(ms[1..], indent + 1, format),
      ObjectEnd(indent, format, post);
    SeparatorParts(format);
    AfterMemberParts(ms[1..], indent, format, post);
    MembersRegroup(i, q, [COLON], if format then [TAB] else [], p, m, r, e);
  }

  lemma AfterMemberParts(rest: seq<Member>, indent: nat, format: bool, post: Text)
    ensures AfterMember(rest, indent, format, post)
      == MemberEnd(rest == [], format) + (PrintMembers(rest, indent + 1, format) + ObjectEnd(indent, format, post))
  {
    hide PrintMembers, ObjectEnd;
    if rest == [] {
      NoMembers(indent + 1, format);
    }
  }

  lemma MembersRegroup(i: Text, q: Text, colon: Text, gap: Text, p: Text, m: Text, r: Text, e: Text)
    ensures i + q + (colon + gap) + p + m + r + e == i + (q + (colon + (gap + (p + (m + (r + e))))))
  {
    assert i + q + (colon + gap) + p == i + (q + (colon + (gap + p)));
    assert i + (q + (colon + (gap + p))) + m + r + e == i + (q + (colon + (gap + p))) + (m + (r + e));
    var rest := m + (r + e);
    assert i + (q + (colon + (gap + p))) + rest == i + (q + (colon + (gap + (p + rest))));
  }

  lemma {:induction false} MembersBack(ms: seq<Member>, ws: Text, indent: nat, format: bool, depth: nat,
      strtod: Strtod, post: Text)
    requires ms != [] && GoodMembers(ms, depth) && ReadsDecimals(strtod) && Space(ws)
    ensures ParseMembers(ws + MembersText(ms, indent, format, post), depth, strtod) == Ok(ms, post)
    decreases ms, 0
  {
    hide MembersText, Print, ParseValue, SkipSpace, GoodTree, ReadsDecimals, ParseMembers, ParseMember, Quote,
      AfterMember;
    var m, rest := ms[0], ms[1..];
    var after := AfterMember(rest, indent, format, post);
    var s := ws + MembersText(ms, indent, format, post);
    MembersTextHead(ms, indent, format, post);
    MemberBack(m, rest, ws + Indentation(indent + 1, format), indent, format, depth, strtod, post);
    assert s == ws + Indentation(indent + 1, format) + (Quote(m.key) + AfterName(m, rest, indent, format, post));
    assert ms == [m] + rest;
    if rest == [] {
      LastBrace(indent, format, post);
      assert ms == [m];
      LastMember(s, depth, strtod, m, after, [CLOSE_BRACE] + post);
    } else {
      CommaAfter(rest, indent, format, post);
      SkipNothing(after);
      MembersBack(rest, LineEnd(format), indent, format, depth, strtod, post);
      OneMoreMember(s, depth, strtod, m, after, rest, post);
    }
  }

  lemma LastBrace(indent: nat, format: bool, post: Text)
    ensures SkipSpace(AfterMember([], indent, format, post)) == [CLOSE_BRACE] + post
    ensures Ends(AfterMember([], indent, format, post))
  {
    var ws := LineEnd(format) + Indentation(indent, format);
    assert AfterMember([], indent, format, post) == ws + ([CLOSE_BRACE] + post);
    SkipAhead(ws, [CLOSE_BRACE] + post);
  }

  lemma CommaAfter(rest: seq<Member>, indent: nat, format: bool, post: Text)
    requires rest != []
    ensures var after := AfterMember(rest, indent, format, post);
      after != [] && after[0] == COMMA && after[1..] == LineEnd(format) + MembersText(rest, indent, format, post)
  {
    hide MembersText;
  }

  lemma LastMember(s: Text, depth: nat, strtod: Strtod, m: Member, after: Text, brace: Text)
    requires ParseMember(s, depth, strtod) == Ok(m, after)
    requires SkipSpace(after) == brace && brace != [] && brace[0] == CLOSE_BRACE
    ensures ParseMembers(s, depth, strtod) == Ok([m], brace[1..])
  {
    hide ParseMember, SkipSpace;
  }

  lemma OneMoreMember(s: Text, depth: nat, strtod: Strtod, m: Member, after: Text, more: seq<Member>, post: Text)
    requires ParseMember(s, depth, strtod) == Ok(m, after)
    requires SkipSpace(after) == after && after != [] && after[0] == COMMA
    requires ParseMembers(after[1..], depth, strtod) == Ok(more, post)
    ensures ParseMembers(s, depth, strtod) == Ok([m] + more, post)
  {
    hide ParseMember, SkipSpace;
  }

  lemma {:induction false} MemberBack(m: Member, rest: seq<Member>, ws: Text, indent: nat, format: bool, depth: nat,
      strtod: Strtod, post: Text)
    requires GoodMember(m, depth) && ReadsDecimals(strtod) && Space(ws)
    ensures ParseMember(ws + (Quote(m.key) + AfterName(m, rest, indent, format, post)), depth, strtod)
      == Ok(m, AfterMember(rest, indent, format, post))
    decreases m, 0
  {
    hide Print, ParseValue, SkipSpace, GoodTree, ReadsDecimals, Quote, ParseString, AfterMember;
    var after := AfterMember(rest, indent, format, post);
    var named := AfterName(m, rest, indent, format, post);
    var s := Quote(m.key) + named;
    QuoteStart(m.key);
    SkipAhead(ws, s);
    StringBack(m.key, named);
    SkipNothing(named);
    var value := Print(m.value, indent + 1, format) + after;
    assert named[1..] == (if format then [TAB] else []) + value;
    NotInvalid(m.value, depth);
    PrintStart(m.value, indent + 1, format);
    SkipAhead(if format then [TAB] else [], value);
    AfterEnds(rest, indent, format, post);
    ValueBack(m.value, indent + 1, format, depth, strtod, after);
  }

  lemma QuoteStart(s: Text)
    ensures Visible(Quote(s))
  {}

  lemma AfterEnds(rest: seq<Member>, indent: nat, format: bool, post: Text)
    ensures Ends(AfterMember(rest, indent, format, post))
  {
    if rest == [] {
      LastBrace(indent, format, post);
    } else {
      CommaAfter(rest, indent, format, post);
    }
  }

  lemma GoodMembersOf(ms: seq<Member>, depth: nat)
    requires GoodTree(Object(ms), depth)
    ensures depth < NESTING_LIMIT && GoodMembers(ms, depth + 1)
  {
    assert PlainMembers(ms);
    forall i | 0 <= i < |ms|
      ensures GoodMember(ms[i], depth + 1)
    {
      assert Plain(ms[i].value);
      assert Depth(ms[i].value) <= DeepestMember(ms);
    }
  }

  /** The loop of `parse_object` starts by skipping the space that has been skipped before it. */
  lemma SkippedBefore(s: Text, depth: nat, strtod: Strtod)
    requires SkipSpace(SkipSpace(s)) == SkipSpace(s)
    ensures ParseMembers(SkipSpace(s), depth, strtod) == ParseMembers(s, depth, strtod)
  {
    hide SkipSpace, ParseString, ParseValue;
  }

  lemma {:induction false} ObjectBack(ms: seq<Member>, indent: nat, format: bool, depth: nat, strtod: Strtod,
      post: Text)
    requires GoodTree(Object(ms), depth) && ReadsDecimals(strtod)
    ensures Back(Object(ms), indent, format, depth, strtod, post)
    decreases ms, 1
  {
    hide PrintMembers, ParseMembers, SkipSpace, GoodTree, GoodMembers, ReadsDecimals, ParseValue, ParseObject;
    hide MembersText, AfterName, Quote, Print, LineEnd, Indentation, AfterMember;
    var inner := LineEnd(format) + MembersText(ms, indent, format, post);
    var s := [OPEN_BRACE] + inner;
    ObjectTextIs(ms, indent, format, post);
    assert s[1..] == inner;
    ByFirstByte(s, depth, strtod);
    GoodMembersOf(ms, depth);
    if ms == [] {
      NoMembersText(indent, format, post);
      LastBrace(indent, format, post);
      NoMembersParsed(s, depth, strtod);
    } else {
      MembersTextHead(ms, indent, format, post);
      var named := Quote(ms[0].key) + AfterName(ms[0], ms[1..], indent, format, post);
      var ws := LineEnd(format) + Indentation(indent + 1, format);
      QuoteStart(ms[0].key);
      QuoteLength(ms[0].key);
      assert inner == ws + named;
      AllSpace(indent + 1, format);
      SkipAhead(ws, named);
      SkipNothing(named);
      SkippedBefore(inner, depth + 1, strtod);
      MembersBack(ms, LineEnd(format), indent, format, depth + 1, strtod, post);
      MembersParsed(s, depth, strtod, ms, post);
    }
  }

  lemma AllSpace(indent: nat, format: bool)
    ensures Space(LineEnd(format)) && Space(LineEnd(format) + Indentation(indent, format))
  {}

  lemma NoMembersParsed(s: Text, depth: nat, strtod: Strtod)
    requires s != [] && s[0] == OPEN_BRACE && depth < NESTING_LIMIT
    requires SkipSpace(s[1..]) != [] && SkipSpace(s[1..])[0] == CLOSE_BRACE
    ensures ParseObject(s, depth, strtod) == Ok(Object([]), SkipSpace(s[1..])[1..])
  {
    hide SkipSpace, ParseMembers;
  }

  lemma MembersParsed(s: Text, depth: nat, strtod: Strtod, ms: seq<Member>, post: Text)
    requires s != [] && s[0] == OPEN_BRACE && depth < NESTING_LIMIT
    requires SkipSpace(s[1..]) != [] && SkipSpace(s[1..])[0] != CLOSE_BRACE
    requires ParseMembers(SkipSpace(s[1..]), depth + 1, strtod) == Ok(ms, post)
    ensures ParseObject(s, depth, strtod) == Ok(Object(ms), post)
  {
    hide SkipSpace, ParseMembers;
  }

  lemma ObjectTextIs(ms: seq<Member>, indent: nat, format: bool, post: Text)
    ensures Print(Object(ms), indent, format) + post ==
      [OPEN_BRACE] + (LineEnd(format) + MembersText(ms, indent, format, post))
  {
    hide PrintMembers;
  }

  lemma NoMembersText(indent: nat, format: bool, post: Text)
    ensures LineEnd(format) + MembersText([], indent, format, post) == AfterMember([], indent, format, post)
  {
    NoMembers(indent + 1, format);
  }

  // ----- duplicates have the same text

  lemma {:induction false} FreshPrints(j: Json, depth: nat, format: bool)
    ensures Print(Fresh(j), depth, format) == Print(j, depth, format)
    decreases j, 1
  {
    match j
    case Array(items) => FreshItemsPrint(items, Fresh(j).items, depth + 1, format);
    case Object(members, _) => FreshMembersPrint(members, depth + 1, format);
    case _ =>
  }

  lemma {:induction false} FreshItemsPrint(items: seq<Json>, copies: seq<Json>, depth: nat, format: bool)
    requires |copies| == |items| && forall i | 0 <= i < |items| :: copies[i] == Fresh(items[i])
    ensures PrintItems(copies, depth, format) == PrintItems(items, depth, format)
    decreases items, 0
  {
    if items != [] {
      FreshPrints(items[0], depth, format);
      FreshItemsPrint(items[1..], copies[1..], depth, format);
    }
  }

  lemma {:induction false} FreshMembersPrint(ms: seq<Member>, depth: nat, format: bool)
    ensures PrintMembers(FreshMembers(ms), depth, format) == PrintMembers(ms, depth, format)
    decreases ms, 0
  {
    if ms != [] {
      FreshPrints(ms[0].value, depth, format);
      FreshMembersPrint(ms[1..], depth, format);
      assert FreshMembers(ms)[1..] == FreshMembers(ms[1..]);
    }
  }

  /** k can be printed wherever j can, and is nested no deeper. */
  ghost predicate AsGood(j: Json, k: Json) {
    (Plain(j) ==> Plain(k)) && (NoInvalid(j) ==> NoInvalid(k)) && Depth(k) <= Depth(j)
  }

  lemma AsGoodItems(items: seq<Json>, copies: seq<Json>)
    requires |copies| == |items| && forall i | 0 <= i < |items| :: AsGood(items[i], copies[i])
    ensures AsGood(Array(items), Array(copies))
  {
    DeepestItemIsLeast(copies, DeepestItem(items));
    if PlainItems(items) {
      assert forall i | 0 <= i < |items| :: Plain(items[i]);
    }
  }

  lemma AsGoodMembers(ms: seq<Member>, copies: seq<Member>, tail: Tail)
    requires |copies| == |ms| && forall i | 0 <= i < |ms| ::
        copies[i].key == ms[i].key && AsGood(ms[i].value, copies[i].value)
    ensures AsGood(Object(ms, tail), Object(copies))
  {
    DeepestMemberIsLeast(copies, DeepestMember(ms));
    if PlainMembers(ms) {
      assert forall i | 0 <= i < |ms| :: Plain(ms[i].value);
    }
  }

  lemma {:induction false} FreshGood(j: Json)
    ensures AsGood(j, Fresh(j))
  {
    hide AsGood;
    match j
    case Array(items) =>
      forall i | 0 <= i < |items|
        ensures AsGood(items[i], Fresh(j).items[i])
      {
        FreshGood(items[i]);
      }
      AsGoodItems(items, Fresh(j).items);
    case Object(members, tail) =>
      forall i | 0 <= i < |members|
        ensures AsGood(members[i].value, FreshMembers(members)[i].value)
      {
        FreshGood(members[i].value);
      }
      AsGoodMembers(members, FreshMembers(members), tail);
    case _ =>
      AsGoodRefl(j);
  }

  lemma AsGoodRefl(j: Json)
    ensures AsGood(j, j)
  {}

  /** For every tree that C data can hold and that is nested no deeper than the limit: parsing its text, in either
   format and with the check for the terminator, gives what duplicating the tree gives. */
  lemma ParseUndoesPrint(j: Json, format: bool, strtod: Strtod)
    requires Plain(j) && NoInvalid(j) && Depth(j) <= NESTING_LIMIT && ReadsDecimals(strtod)
    ensures Parse(Print(j, 0, format) + [0], true, strtod) == Ok(Fresh(j), [0])
    ensures Parse(Print(j, 0, format), false, strtod) == Ok(Fresh(j), [])
  {
    hide Print, ParseValue, ReadsDecimals, Plain, NoInvalid, Appendable, Fresh, SkipSpace, SkipBom, GoodTree, Denote,
      Unique;
    var t, k := Print(j, 0, format), Fresh(j);
    FreshPrints(j, 0, format);
    FreshIsGood(j);
    NotInvalid(k, 0);
    PrintStart(k, 0, format);
    assert t + [] == t;
    SkipNothing(t);
    SkipNothing(t + [0]);
    ValueBack(k, 0, format, 0, strtod, [0]);
    ValueBack(k, 0, format, 0, strtod, []);
    NoBom(t);
    NoBom(t + [0]);
    LastByteStays();
  }

  lemma FreshIsGood(j: Json)
    requires Plain(j) && NoInvalid(j) && Depth(j) <= NESTING_LIMIT
    ensures GoodTree(Fresh(j), 0)
  {
    FreshGood(j);
    FreshMeans(j);
  }

  lemma LastByteStays()
    ensures SkipSpace([0]) == [0] && SkipSpace([]) == []
  {}

  lemma NoBom(s: Text)
    requires s != [] && s[0] != 0xEF
    ensures SkipBom(s) == s
  {
    assert |s| > 4 ==> s[..3][0] == s[0];
  }

  /** Whatever has been parsed can be printed and parsed again without change: printing gives a normal form of the text.
   */
  lemma PrintNormalises(text: Text, requireNul: bool, format: bool, strtod: Strtod)
    requires Parse(text, requireNul, strtod).Ok? && ReadsDecimals(strtod)
    ensures var j := Parse(text, requireNul, strtod).value;
      Parse(Print(j, 0, format) + [0], true, strtod) == Ok(j, [0])
  {
    hide Print, ParseValue, ReadsDecimals, Plain, NoInvalid, Appendable;
    ValuePromise(SkipSpace(SkipBom(text)), 0, strtod);
    var j := Parse(text, requireNul, strtod).value;
    FreshKeeps(j);
    ParseUndoesPrint(j, format, strtod);
  }

  /** Different trees have different texts, up to where appending to their objects arrives. */
  lemma PrintInjective(a: Json, b: Json, format: bool)
    requires Plain(a) && NoInvalid(a) && Depth(a) <= NESTING_LIMIT
    requires Plain(b) && NoInvalid(b) && Depth(b) <= NESTING_LIMIT
    requires Print(a, 0, format) == Print(b, 0, format)
    ensures Fresh(a) == Fresh(b)
  {
    hide Print, Parse, ReadsDecimals, Plain, NoInvalid, Fresh;
    ReadWholeReadsDecimals();
    ParseUndoesPrint(a, format, ReadWhole);
    ParseUndoesPrint(b, format, ReadWhole);
  }
}
