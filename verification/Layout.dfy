/** What the two formats of a printed tree have in common, and how they differ. */
module Layout {
  import opened Strings
  import opened Json
  import opened Printing

  /** The text without the bytes up to 32 that stand outside its quoted texts. */
  function Strip(s: Text, quoted: bool): Text
    decreases |s|
  {
    if s == [] then []
    else if quoted then
      if s[0] == BACKSLASH && |s| > 1 then s[..2] + Strip(s[2..], true)
      else s[..1] + Strip(s[1..], s[0] != QUOTE)
    else if s[0] <= 32 then Strip(s[1..], false)
    else s[..1] + Strip(s[1..], s[0] == QUOTE)
  }

  /**
   The layout of a text without blanks, inside arrays and objects, of which `inside` tells
   the objects: each member on a line of its own, behind a tab for each array and object it
   is in; a space behind each element but the last; a tab behind each colon; and the brace
   that closes an object on a line of its own.
   */
  function Lay(s: Text, inside: seq<bool>, quoted: bool): Text
    decreases |s|
  {
    if s == [] then []
    else if quoted then
      if s[0] == BACKSLASH && |s| > 1 then s[..2] + Lay(s[2..], inside, true)
      else s[..1] + Lay(s[1..], inside, s[0] != QUOTE)
    else if s[0] == OPEN_BRACE then
      if |s| > 1 && s[1] == CLOSE_BRACE then
        Ascii("{\n") + Tabs(|inside|) + Ascii("}") + Lay(s[2..], inside, false)
      else Ascii("{\n") + Tabs(|inside| + 1) + Lay(s[1..], inside + [true], false)
    else if s[0] == CLOSE_BRACE && inside != [] then
      Ascii("\n") + Tabs(|inside| - 1) + Ascii("}") + Lay(s[1..], inside[..|inside|-1], false)
    else if s[0] == OPEN_BRACKET then Ascii("[") + Lay(s[1..], inside + [false], false)
    else if s[0] == CLOSE_BRACKET && inside != [] then Ascii("]") + Lay(s[1..], inside[..|inside|-1], false)
    else if s[0] == COMMA && inside != [] then
      Separator(inside) + Lay(s[1..], inside, false)
    else if s[0] == COLON then Ascii(":\t") + Lay(s[1..], inside, false)
    else s[..1] + Lay(s[1..], inside, s[0] == QUOTE)
  }

  function Separator(inside: seq<bool>): Text
    requires inside != []
  {
    if inside[|inside|-1] then Ascii(",\n") + Tabs(|inside|) else Ascii(", ")
  }

  // ----- quoted texts stay as they are

  /** Bytes that neither end a quoted text nor escape anything. */
  predicate Inert(p: Text) {
    forall i | 0 <= i < |p| :: p[i] != QUOTE && p[i] != BACKSLASH
  }

  lemma {:induction false} InertKept(p: Text, rest: Text, inside: seq<bool>)
    requires Inert(p)
    ensures Strip(p + rest, true) == p + Strip(rest, true)
    ensures Lay(p + rest, inside, true) == p + Lay(rest, inside, true)
  {
    if p == [] {
      assert p + rest == rest;
    } else {
      var s := p + rest;
      assert s[1..] == p[1..] + rest && s[..1] == p[..1];
      InertKept(p[1..], rest, inside);
      assert p == p[..1] + p[1..];
    }
  }

  lemma PairKept(letter: Byte, rest: Text, inside: seq<bool>)
    ensures Strip([BACKSLASH, letter] + rest, true) == [BACKSLASH, letter] + Strip(rest, true)
    ensures Lay([BACKSLASH, letter] + rest, inside, true) == [BACKSLASH, letter] + Lay(rest, inside, true)
  {
    var s := [BACKSLASH, letter] + rest;
    assert s[2..] == rest && s[..2] == [BACKSLASH, letter];
  }

  /** Escape sequences of one byte. */
  lemma EscapeKept(c: Byte, rest: Text, inside: seq<bool>)
    ensures Strip(Escape(c) + rest, true) == Escape(c) + Strip(rest, true)
    ensures Lay(Escape(c) + rest, inside, true) == Escape(c) + Lay(rest, inside, true)
  {
    hide Strip, Lay;
    var e := Escape(c);
    if e[0] == BACKSLASH {
      var head, more := [BACKSLASH, e[1]], e[2..];
      InertKept(more, rest, inside);
      PairKept(e[1], more + rest, inside);
      assert e == head + more;
      Regroup(head, more, rest);
      Regroup(head, more, Strip(rest, true));
      Regroup(head, more, Lay(rest, inside, true));
    } else {
      InertKept(e, rest, inside);
    }
  }

  lemma {:induction false} EscapesKept(s: Text, rest: Text, inside: seq<bool>)
    ensures Strip(EscapeAll(s) + rest, true) == EscapeAll(s) + Strip(rest, true)
    ensures Lay(EscapeAll(s) + rest, inside, true) == EscapeAll(s) + Lay(rest, inside, true)
  {
    if s == [] {
      assert EscapeAll(s) + rest == rest;
    } else {
      hide Strip, Lay, Escape, EscapeAll;
      EscapeHead(s);
      EscapesKept(s[1..], rest, inside);
      EscapeKept(s[0], EscapeAll(s[1..]) + rest, inside);
      Regroup(Escape(s[0]), EscapeAll(s[1..]), rest);
      Regroup(Escape(s[0]), EscapeAll(s[1..]), Strip(rest, true));
      Regroup(Escape(s[0]), EscapeAll(s[1..]), Lay(rest, inside, true));
    }
  }

  lemma Regroup(a: Text, b: Text, c: Text)
    ensures (a + b) + c == a + (b + c)
  {}

  lemma QuotesTurn(rest: Text, inside: seq<bool>)
    ensures Strip([QUOTE] + rest, false) == [QUOTE] + Strip(rest, true)
    ensures Strip([QUOTE] + rest, true) == [QUOTE] + Strip(rest, false)
    ensures Lay([QUOTE] + rest, inside, false) == [QUOTE] + Lay(rest, inside, true)
    ensures Lay([QUOTE] + rest, inside, true) == [QUOTE] + Lay(rest, inside, false)
  {
    assert ([QUOTE] + rest)[1..] == rest && ([QUOTE] + rest)[..1] == [QUOTE];
  }

  lemma QuoteKept(s: Text, rest: Text, inside: seq<bool>)
    ensures Strip(Quote(s) + rest, false) == Quote(s) + Strip(rest, false)
    ensures Lay(Quote(s) + rest, inside, false) == Quote(s) + Lay(rest, inside, false)
  {
    hide EscapeAll, Strip, Lay;
    var more := EscapeAll(s) + ([QUOTE] + rest);
    QuotePieces(s, rest);
    QuotesTurn(more, inside);
    EscapesKept(s, [QUOTE] + rest, inside);
    QuotesTurn(rest, inside);
    QuotePieces(s, Strip(rest, false));
    QuotePieces(s, Lay(rest, inside, false));
  }

  lemma QuotePieces(s: Text, rest: Text)
    ensures Quote(s) + rest == [QUOTE] + (EscapeAll(s) + ([QUOTE] + rest))
  {
    hide EscapeAll;
  }

  // ----- words, numbers and blanks

  predicate Ordinary(p: Text) {
    forall i | 0 <= i < |p| ::
      p[i] > 32 && p[i] !in {QUOTE, COMMA, COLON, OPEN_BRACE, CLOSE_BRACE, OPEN_BRACKET, CLOSE_BRACKET}
  }

  lemma {:induction false} OrdinaryKept(p: Text, rest: Text, inside: seq<bool>)
    requires Ordinary(p)
    ensures Strip(p + rest, false) == p + Strip(rest, false)
    ensures Lay(p + rest, inside, false) == p + Lay(rest, inside, false)
  {
    if p == [] {
      assert p + rest == rest;
    } else {
      var s := p + rest;
      assert s[1..] == p[1..] + rest && s[..1] == p[..1];
      OrdinaryKept(p[1..], rest, inside);
      assert p == p[..1] + p[1..];
    }
  }

  lemma {:induction false} BlanksDropped(p: Text, rest: Text)
    requires forall i | 0 <= i < |p| :: p[i] <= 32
    ensures Strip(p + rest, false) == Strip(rest, false)
  {
    if p == [] {
      assert p + rest == rest;
    } else {
      assert (p + rest)[1..] == p[1..] + rest;
      BlanksDropped(p[1..], rest);
    }
  }

  lemma MarkKept(c: Byte, rest: Text)
    requires c > 32 && c != QUOTE
    ensures Strip([c] + rest, false) == [c] + Strip(rest, false)
  {
    assert ([c] + rest)[1..] == rest && ([c] + rest)[..1] == [c];
  }

  lemma WordsOrdinary(n: int)
    ensures Ordinary(FALSE_TEXT) && Ordinary(TRUE_TEXT) && Ordinary(NULL_TEXT) && Ordinary(Decimal(n))
  {
    hide Digits;
  }

  // ----- stripping

  /** Stripping either format, at any depth, leaves the unformatted text, at any depth. */
  lemma {:induction false} StripValue(j: Json, depth: nat, format: bool, e: nat, rest: Text)
    ensures Strip(Print(j, depth, format) + rest, false) == Print(j, e, false) + Strip(rest, false)
    decreases j, 1
  {
    hide Strip, Quote, Decimal, Ordinary, PrintItems, PrintMembers;
    match j
    case Invalid => assert [] + rest == rest;
    case False =>
      WordsOrdinary(0);
      OrdinaryKept(FALSE_TEXT, rest, []);
    case True =>
      WordsOrdinary(0);
      OrdinaryKept(TRUE_TEXT, rest, []);
    case Null =>
      WordsOrdinary(0);
      OrdinaryKept(NULL_TEXT, rest, []);
    case Number(n) =>
      WordsOrdinary(n);
      OrdinaryKept(Decimal(n), rest, []);
    case String(s) => QuoteKept(s, rest, []);
    case Array(items) => StripArray(items, depth, format, e, rest);
    case Object(members, _) => StripObject(members, depth, format, e, rest);
  }

  lemma {:induction false} StripArray(items: seq<Json>, depth: nat, format: bool, e: nat, rest: Text)
    ensures Strip(Print(Array(items), depth, format) + rest, false) ==
      Print(Array(items), e, false) + Strip(rest, false)
    decreases items, 1
  {
    hide Strip, PrintItems;
    var inner := PrintItems(items, depth + 1, format);
    assert Print(Array(items), depth, format) + rest == [OPEN_BRACKET] + (inner + ([CLOSE_BRACKET] + rest));
    MarkKept(OPEN_BRACKET, inner + ([CLOSE_BRACKET] + rest));
    StripItems(items, depth + 1, format, e + 1, [CLOSE_BRACKET] + rest);
    MarkKept(CLOSE_BRACKET, rest);
    var plain := PrintItems(items, e + 1, false);
    assert [OPEN_BRACKET] + (plain + ([CLOSE_BRACKET] + Strip(rest, false))) ==
      [OPEN_BRACKET] + plain + [CLOSE_BRACKET] + Strip(rest, false);
  }

  lemma {:induction false} StripItems(items: seq<Json>, depth: nat, format: bool, e: nat, rest: Text)
    ensures Strip(PrintItems(items, depth, format) + rest, false) == PrintItems(items, e, false) + Strip(rest, false)
    decreases items, 0
  {
    hide Strip, Print, PrintItems;
    if items == [] {
      NoItems(depth, format);
      NoItems(e, false);
      assert [] + rest == rest;
    } else {
      var last, more := |items| == 1, PrintItems(items[1..], depth, format) + rest;
      var sep, mark := if last then [] else ItemSeparator(format), if last then [] else [COMMA];
      ItemsHead(items, depth, format);
      ItemsHead(items, e, false);
      StripItems(items[1..], depth, format, e, rest);
      StripValue(items[0], depth, format, e, sep + more);
      StripSeparator(last, format, more);
      var p, q := Print(items[0], depth, format), Print(items[0], e, false);
      ItemPieces(p, sep, PrintItems(items[1..], depth, format), rest);
      ItemPieces(q, mark, PrintItems(items[1..], e, false), Strip(rest, false));
    }
  }

  lemma ItemPieces(p: Text, sep: Text, more: Text, rest: Text)
    ensures ((p + sep) + more) + rest == p + (sep + (more + rest))
  {}

  lemma StripSeparator(last: bool, format: bool, more: Text)
    ensures Strip((if last then [] else ItemSeparator(format)) + more, false) ==
      (if last then [] else [COMMA]) + Strip(more, false)
  {
    hide Strip;
    if last {
      assert [] + more == more;
    } else {
      var gap := if format then [SPACE] else [];
      assert ItemSeparator(format) + more == [COMMA] + (gap + more);
      MarkKept(COMMA, gap + more);
      BlanksDropped(gap, more);
    }
  }

  lemma {:induction false} StripObject(ms: seq<Member>, depth: nat, format: bool, e: nat, rest: Text)
    ensures forall tail ::
      Strip(Print(Object(ms, tail), depth, format) + rest, false) == Print(Object(ms, tail), e, false) +
        Strip(rest, false)
    decreases ms, 1
  {
    hide Strip, PrintMembers;
    var inner := PrintMembers(ms, depth + 1, format);
    var line, tabs := if format then [NEWLINE] else [], if format then Tabs(depth) else [];
    var close := tabs + ([CLOSE_BRACE] + rest);
    forall tail
      ensures Print(Object(ms, tail), depth, format) + rest == [OPEN_BRACE] + (line + (inner + close))
    {}
    MarkKept(OPEN_BRACE, line + (inner + close));
    BlanksDropped(line, inner + close);
    StripMembers(ms, depth + 1, format, e + 1, close);
    BlanksDropped(tabs, [CLOSE_BRACE] + rest);
    MarkKept(CLOSE_BRACE, rest);
    var plain := PrintMembers(ms, e + 1, false);
    forall tail
      ensures [OPEN_BRACE] + (plain + ([CLOSE_BRACE] + Strip(rest, false))) ==
        Print(Object(ms, tail), e, false) + Strip(rest, false)
    {}
  }

  lemma {:induction false} StripMembers(ms: seq<Member>, depth: nat, format: bool, e: nat, rest: Text)
    ensures Strip(PrintMembers(ms, depth, format) + rest, false) == PrintMembers(ms, e, false) + Strip(rest, false)
    decreases ms, 0
  {
    hide Strip, PrintMember, PrintMembers;
    if ms == [] {
      NoMembers(depth, format);
      NoMembers(e, false);
      assert [] + rest == rest;
    } else {
      var last, more := |ms| == 1, PrintMembers(ms[1..], depth, format) + rest;
      MembersHead(ms, depth, format);
      MembersHead(ms, e, false);
      StripMembers(ms[1..], depth, format, e, rest);
      StripMember(ms[0], last, depth, format, e, more);
      Regroup(PrintMember(ms[0], last, depth, format), PrintMembers(ms[1..], depth, format), rest);
      Regroup(PrintMember(ms[0], last, e, false), PrintMembers(ms[1..], e, false), Strip(rest, false));
    }
  }

  lemma {:induction false} StripMember(m: Member, last: bool, depth: nat, format: bool, e: nat, more: Text)
    ensures Strip(PrintMember(m, last, depth, format) + more, false) ==
      PrintMember(m, last, e, false) + Strip(more, false)
    decreases m, 0
  {
    hide Strip, Print, Quote;
    var tabs, gap := if format then Tabs(depth) else [], if format then [TAB] else [];
    var comma, line := if last then [] else [COMMA], if format then [NEWLINE] else [];
    var behind := Print(m.value, depth, format) + (comma + (line + more));
    assert PrintMember(m, last, depth, format) + more == tabs + (Quote(m.key) + ([COLON] + (gap + behind))) by {
      MemberPieces(tabs, Quote(m.key), gap, Print(m.value, depth, format), comma, line, more);
    }
    BlanksDropped(tabs, Quote(m.key) + ([COLON] + (gap + behind)));
    QuoteKept(m.key, [COLON] + (gap + behind), []);
    MarkKept(COLON, gap + behind);
    BlanksDropped(gap, behind);
    StripValue(m.value, depth, format, e, comma + (line + more));
    BlanksDropped(line, more);
    if last {
      assert comma + (line + more) == line + more;
    } else {
      MarkKept(COMMA, line + more);
    }
    MemberPieces([], Quote(m.key), [], Print(m.value, e, false), comma, [], Strip(more, false));
  }

  lemma MemberPieces(tabs: Text, q: Text, gap: Text, p: Text, comma: Text, line: Text, more: Text)
    ensures (tabs + q + ([COLON] + gap)) + p + (comma + line) + more ==
      tabs + (q + ([COLON] + (gap + (p + (comma + (line + more))))))
    ensures [COLON] + [] == [COLON] && [COLON, TAB] == [COLON] + [TAB] && [] + (line + more) == line + more
    ensures [] + q == q && comma + [] == comma && [] + more == more
  {}

  // ----- laying out

  lemma AsciiMarks()
    ensures Ascii("{\n") == [OPEN_BRACE, NEWLINE] && Ascii("}") == [CLOSE_BRACE] && Ascii("\n") == [NEWLINE]
    ensures Ascii("[") == [OPEN_BRACKET] && Ascii("]") == [CLOSE_BRACKET]
    ensures Ascii(",\n") == [COMMA, NEWLINE] && Ascii(", ") == [COMMA, SPACE] && Ascii(":\t") == [COLON, TAB]
  {}

  lemma LayBrackets(rest: Text, inside: seq<bool>)
    ensures Lay([OPEN_BRACKET] + rest, inside, false) == [OPEN_BRACKET] + Lay(rest, inside + [false], false)
    ensures Lay([CLOSE_BRACKET] + rest, inside + [false], false) == [CLOSE_BRACKET] + Lay(rest, inside, false)
    ensures Lay([COMMA] + rest, inside + [false], false) == [COMMA, SPACE] + Lay(rest, inside + [false], false)
    ensures Lay([COLON] + rest, inside, false) == [COLON, TAB] + Lay(rest, inside, false)
  {
    hide Ascii;
    AsciiMarks();
    assert ([OPEN_BRACKET] + rest)[1..] == rest && ([CLOSE_BRACKET] + rest)[1..] == rest;
    assert ([COMMA] + rest)[1..] == rest && ([COLON] + rest)[1..] == rest;
    assert (inside + [false])[..|inside|] == inside;
  }

  lemma LayEmpty(rest: Text, inside: seq<bool>)
    ensures Lay([OPEN_BRACE, CLOSE_BRACE] + rest, inside, false) ==
      [OPEN_BRACE, NEWLINE] + (Tabs(|inside|) + ([CLOSE_BRACE] + Lay(rest, inside, false)))
  {
    hide Ascii, Tabs;
    AsciiMarks();
    var s := [OPEN_BRACE, CLOSE_BRACE] + rest;
    assert s[0] == OPEN_BRACE && s[1] == CLOSE_BRACE && s[2..] == rest;
    Regroup([OPEN_BRACE, NEWLINE] + Tabs(|inside|), [CLOSE_BRACE], Lay(rest, inside, false));
    Regroup([OPEN_BRACE, NEWLINE], Tabs(|inside|), [CLOSE_BRACE] + Lay(rest, inside, false));
  }

  lemma LayOpen(rest: Text, inside: seq<bool>)
    requires rest != [] && rest[0] != CLOSE_BRACE
    ensures Lay([OPEN_BRACE] + rest, inside, false) ==
      [OPEN_BRACE, NEWLINE] + (Tabs(|inside| + 1) + Lay(rest, inside + [true], false))
  {
    hide Ascii, Tabs;
    AsciiMarks();
    var s := [OPEN_BRACE] + rest;
    assert s[0] == OPEN_BRACE && s[1] == rest[0] && s[1..] == rest;
    Regroup([OPEN_BRACE, NEWLINE], Tabs(|inside| + 1), Lay(rest, inside + [true], false));
  }

  lemma LayClose(rest: Text, inside: seq<bool>)
    ensures Lay([CLOSE_BRACE] + rest, inside + [true], false) ==
      [NEWLINE] + (Tabs(|inside|) + ([CLOSE_BRACE] + Lay(rest, inside, false)))
  {
    hide Ascii, Tabs;
    AsciiMarks();
    var s := [CLOSE_BRACE] + rest;
    assert s[0] == CLOSE_BRACE && s[1..] == rest && (inside + [true])[..|inside|] == inside;
    Regroup([NEWLINE] + Tabs(|inside|), [CLOSE_BRACE], Lay(rest, inside, false));
    Regroup([NEWLINE], Tabs(|inside|), [CLOSE_BRACE] + Lay(rest, inside, false));
  }

  lemma LayCommaStep(rest: Text, inside: seq<bool>)
    requires inside != []
    ensures Lay([COMMA] + rest, inside, false) == Separator(inside) + Lay(rest, inside, false)
  {
    hide Separator, Ascii, Tabs;
    assert ([COMMA] + rest)[0] == COMMA && ([COMMA] + rest)[1..] == rest;
  }

  lemma LayComma(rest: Text, inside: seq<bool>)
    ensures Lay([COMMA] + rest, inside + [true], false) ==
      [COMMA, NEWLINE] + (Tabs(|inside| + 1) + Lay(rest, inside + [true], false))
  {
    hide Ascii, Tabs, Lay;
    AsciiMarks();
    var within := inside + [true];
    LayCommaStep(rest, within);
    Regroup([COMMA, NEWLINE], Tabs(|within|), Lay(rest, within, false));
  }

  /** Laying out the unformatted text of a value gives its formatted text. */
  lemma {:induction false} LayValue(j: Json, e: nat, inside: seq<bool>, rest: Text)
    ensures Lay(Print(j, e, false) + rest, inside, false) == Print(j, |inside|, true) + Lay(rest, inside, false)
    decreases j, 1
  {
    hide Lay, Quote, Decimal, Ordinary, PrintItems, PrintMembers;
    match j
    case Invalid => assert [] + rest == rest;
    case False =>
      WordsOrdinary(0);
      OrdinaryKept(FALSE_TEXT, rest, inside);
    case True =>
      WordsOrdinary(0);
      OrdinaryKept(TRUE_TEXT, rest, inside);
    case Null =>
      WordsOrdinary(0);
      OrdinaryKept(NULL_TEXT, rest, inside);
    case Number(n) =>
      WordsOrdinary(n);
      OrdinaryKept(Decimal(n), rest, inside);
    case String(s) => QuoteKept(s, rest, inside);
    case Array(items) => LayArray(items, e, inside, rest);
    case Object(members, _) => LayObject(members, e, inside, rest);
  }

  lemma ArrayPieces(items: seq<Json>, depth: nat, format: bool, rest: Text)
    ensures Print(Array(items), depth, format) + rest ==
      [OPEN_BRACKET] + (PrintItems(items, depth + 1, format) + ([CLOSE_BRACKET] + rest))
  {
    hide PrintItems;
  }

  lemma {:induction false} LayArray(items: seq<Json>, e: nat, inside: seq<bool>, rest: Text)
    ensures Lay(Print(Array(items), e, false) + rest, inside, false) ==
      Print(Array(items), |inside|, true) + Lay(rest, inside, false)
    decreases items, 1
  {
    hide Lay, Print, PrintItems;
    var within := inside + [false];
    ArrayPieces(items, e, false, rest);
    LayBrackets(PrintItems(items, e + 1, false) + ([CLOSE_BRACKET] + rest), inside);
    LayItems(items, e + 1, inside, [CLOSE_BRACKET] + rest);
    LayBrackets(rest, inside);
    ArrayPieces(items, |inside|, true, Lay(rest, inside, false));
  }

  lemma {:induction false} LayItems(items: seq<Json>, e: nat, inside: seq<bool>, rest: Text)
    ensures Lay(PrintItems(items, e, false) + rest, inside + [false], false) ==
      PrintItems(items, |inside| + 1, true) + Lay(rest, inside + [false], false)
    decreases items, 0
  {
    hide Lay, Print, PrintItems;
    var within := inside + [false];
    if items == [] {
      NoItems(e, false);
      NoItems(|within|, true);
      assert [] + rest == rest;
    } else {
      var last, more := |items| == 1, PrintItems(items[1..], e, false) + rest;
      ItemsHead(items, e, false);
      ItemsHead(items, |within|, true);
      LayItems(items[1..], e, inside, rest);
      LayValue(items[0], e, within, (if last then [] else [COMMA]) + more);
      if last {
        assert [] + more == more;
      } else {
        LayBrackets(more, inside);
      }
      var p, q := Print(items[0], e, false), Print(items[0], |within|, true);
      assert PrintItems(items, e, false) + rest == p + ((if last then [] else [COMMA]) + more);
      assert q + ((if last then [] else [COMMA, SPACE]) +
          (PrintItems(items[1..], |within|, true) + Lay(rest, within, false))) ==
        PrintItems(items, |within|, true) + Lay(rest, within, false);
    }
  }

  /** The text of an object in its pieces. */
  lemma ObjectPieces(ms: seq<Member>, depth: nat, format: bool, rest: Text)
    ensures forall tail ::
      Print(Object(ms, tail), depth, format) + rest == [OPEN_BRACE] +
        ((if format then [NEWLINE] else []) + (PrintMembers(ms, depth + 1, format) +
        ((if format then Tabs(depth) else []) + ([CLOSE_BRACE] + rest))))
  {
    hide PrintMembers, Tabs;
  }

  lemma {:induction false} LayObject(ms: seq<Member>, e: nat, inside: seq<bool>, rest: Text)
    ensures forall tail ::
      Lay(Print(Object(ms, tail), e, false) + rest, inside, false) ==
        Print(Object(ms, tail), |inside|, true) + Lay(rest, inside, false)
    decreases ms, 1
  {
    hide Lay, Print, PrintMembers, Tabs;
    var end := Lay(rest, inside, false);
    var plain, formatted := Bare(ms, e + 1, rest), Formatted(ms, inside, rest);
    ObjectPieces(ms, e, false, rest);
    ObjectPieces(ms, |inside|, true, end);
    assert [] + (PrintMembers(ms, e + 1, false) + ([] + ([CLOSE_BRACE] + rest))) == plain;
    Regroup([OPEN_BRACE], [NEWLINE], formatted);
    if ms == [] {
      NoMembers(e + 1, false);
      NoMembers(|inside| + 1, true);
      LayEmpty(rest, inside);
      assert [OPEN_BRACE] + plain == [OPEN_BRACE, CLOSE_BRACE] + rest;
      assert formatted == Tabs(|inside|) + ([CLOSE_BRACE] + end);
    } else {
      MembersStart(ms, e + 1, [CLOSE_BRACE] + rest);
      LayOpen(plain, inside);
      LayMembers(ms, e + 1, inside, rest);
    }
  }

  lemma MembersStart(ms: seq<Member>, e: nat, rest: Text)
    requires ms != []
    ensures PrintMembers(ms, e, false) + rest != [] && (PrintMembers(ms, e, false) + rest)[0] == QUOTE
  {
    hide EscapeAll, Print;
  }

  /** The unformatted members and the brace behind them; the formatted ones, with all that the brace becomes. */
  function Bare(ms: seq<Member>, e: nat, rest: Text): Text {
    PrintMembers(ms, e, false) + ([CLOSE_BRACE] + rest)
  }

  function Formatted(ms: seq<Member>, inside: seq<bool>, rest: Text): Text {
    PrintMembers(ms, |inside| + 1, true) + (Tabs(|inside|) + ([CLOSE_BRACE] + Lay(rest, inside, false)))
  }

  /** What stands behind a member. */
  function BehindBare(ms: seq<Member>, e: nat, rest: Text): Text {
    if ms == [] then [CLOSE_BRACE] + rest else [COMMA] + Bare(ms, e, rest)
  }

  lemma BareHead(ms: seq<Member>, e: nat, rest: Text)
    requires ms != []
    ensures Bare(ms, e, rest) ==
      Quote(ms[0].key) + ([COLON] + (Print(ms[0].value, e, false) + BehindBare(ms[1..], e, rest)))
  {
    hide Print, PrintMembers, PrintMember, Quote;
    var more := Bare(ms[1..], e, rest);
    MembersHead(ms, e, false);
    NoMembers(e, false);
    Regroup(PrintMember(ms[0], |ms| == 1, e, false), PrintMembers(ms[1..], e, false), [CLOSE_BRACE] + rest);
    MemberParts(ms[0], |ms| == 1, e, false, more);
    assert ms[1..] == [] ==> more == [CLOSE_BRACE] + rest;
    assert forall s: Text :: [] + s == s;
  }

  lemma FormattedHead(ms: seq<Member>, inside: seq<bool>, rest: Text)
    requires ms != []
    ensures Formatted(ms, inside, rest) ==
      Tabs(|inside| + 1) + (Quote(ms[0].key) + ([COLON, TAB] + (Print(ms[0].value, |inside| + 1, true) +
        (if |ms| == 1 then [NEWLINE] + (Tabs(|inside|) + ([CLOSE_BRACE] + Lay(rest, inside, false)))
         else [COMMA, NEWLINE] + Formatted(ms[1..], inside, rest)))))
  {
    hide Print, PrintMembers, PrintMember, Quote, Tabs, Lay;
    var end, d := Tabs(|inside|) + ([CLOSE_BRACE] + Lay(rest, inside, false)), |inside| + 1;
    MembersHead(ms, d, true);
    NoMembers(d, true);
    Regroup(PrintMember(ms[0], |ms| == 1, d, true), PrintMembers(ms[1..], d, true), end);
    MemberParts(ms[0], |ms| == 1, d, true, PrintMembers(ms[1..], d, true) + end);
    assert |ms| == 1 ==> ms[1..] == [] && [] + end == end;
  }

  lemma {:induction false} LayMembers(ms: seq<Member>, e: nat, inside: seq<bool>, rest: Text)
    requires ms != []
    ensures Tabs(|inside| + 1) + Lay(Bare(ms, e, rest), inside + [true], false) == Formatted(ms, inside, rest)
    decreases ms, 0
  {
    hide Lay, Print, Tabs, Quote, Bare, Formatted;
    var tail := BehindBare(ms[1..], e, rest);
    BareHead(ms, e, rest);
    FormattedHead(ms, inside, rest);
    LayMember(ms[0], e, inside + [true], tail);
    if |ms| == 1 {
      LayClose(rest, inside);
    } else {
      LayComma(Bare(ms[1..], e, rest), inside);
      LayMembers(ms[1..], e, inside, rest);
    }
  }

  lemma {:induction false} LayMember(m: Member, e: nat, within: seq<bool>, tail: Text)
    ensures Lay(Quote(m.key) + ([COLON] + (Print(m.value, e, false) + tail)), within, false) ==
      Quote(m.key) + ([COLON, TAB] + (Print(m.value, |within|, true) + Lay(tail, within, false)))
    decreases m, 0
  {
    hide Lay, Print, Quote;
    QuoteKept(m.key, [COLON] + (Print(m.value, e, false) + tail), within);
    LayBrackets(Print(m.value, e, false) + tail, within);
    LayValue(m.value, e, within, tail);
  }

  lemma MemberParts(m: Member, last: bool, depth: nat, format: bool, more: Text)
    ensures PrintMember(m, last, depth, format) + more ==
      (if format then Tabs(depth) else []) + (Quote(m.key) + ((if format then [COLON, TAB] else [COLON]) +
        (Print(m.value, depth, format) +
          (if format then if last then [NEWLINE] + more else [COMMA, NEWLINE] + more
           else if last then more else [COMMA] + more))))
  {
    hide Print, Quote, Tabs;
    var tabs, gap := if format then Tabs(depth) else [], if format then [TAB] else [];
    var comma, line := if last then [] else [COMMA], if format then [NEWLINE] else [];
    MemberPieces(tabs, Quote(m.key), gap, Print(m.value, depth, format), comma, line, more);
    assert [COMMA, NEWLINE] + more == [COMMA] + ([NEWLINE] + more) && [] + more == more;
    assert [COLON] + (gap + (Print(m.value, depth, format) + (comma + (line + more)))) ==
      ([COLON] + gap) + (Print(m.value, depth, format) + (comma + (line + more)));
    assert comma + (line + more) == if format then if last then [NEWLINE] + more else [COMMA, NEWLINE] + more
      else if last then more else [COMMA] + more;
  }

  // ----- the two formats

  /** The unformatted text has no blank outside its quoted texts; the formatted text is the same but for such blanks. */
  lemma FormatsDifferInBlanks(j: Json, depth: nat)
    ensures Strip(Print(j, depth, false), false) == Print(j, depth, false)
    ensures Strip(Print(j, depth, true), false) == Print(j, depth, false)
  {
    hide Strip, Print;
    Nothing();
    assert forall s: Text :: s + [] == s;
    StripValue(j, depth, false, depth, []);
    StripValue(j, depth, true, depth, []);
  }

  lemma Nothing()
    ensures Strip([], false) == [] && Lay([], [], false) == []
  {}

  /** The formatted text is the unformatted one, laid out. */
  lemma FormattedIsLaidOut(j: Json)
    ensures Print(j, 0, true) == Lay(Print(j, 0, false), [], false)
  {
    hide Lay, Print;
    Nothing();
    assert forall s: Text :: s + [] == s;
    LayValue(j, 0, [], []);
  }
}
