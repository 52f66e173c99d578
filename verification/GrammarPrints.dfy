/** What is printed is JSON text of RFC 8259, and no text of a string in it could be shorter. */
module GrammarPrints {
  import opened Basics
  import opened Strings
  import opened Sorting
  import opened Json
  import opened Printing
  import opened Unicode
  import opened Parsing
  import opened ParsePrint
  import opened Grammar
  import opened GrammarTexts
  import opened GrammarProofs
  import opened GrammarResults

  // ----- texts

  function PieceFor(c: Byte): Piece {
    if EscapeLetter(c) != 0 then Short(EscapeLetter(c))
    else if c < 32 then Group([48, 48, HexDigit(c / 16), HexDigit(c % 16)], c)
    else Raw(c)
  }

  function PiecesFor(s: Text): (r: seq<Piece>)
    ensures |r| == |s| && forall i | 0 <= i < |s| :: r[i] == PieceFor(s[i])
  {
    seq(|s|, i requires 0 <= i < |s| => PieceFor(s[i]))
  }

  lemma PieceForIs(c: Byte)
    ensures StandardPiece(PieceFor(c)) && PieceText(PieceFor(c)) == Escape(c) && PieceBytes(PieceFor(c)) == [c]
  {
    if EscapeLetter(c) != 0 {
      ShortByteIs(EscapeLetter(c));
    } else if c < 32 {
      var digits := [48, 48, HexDigit(c / 16), HexDigit(c % 16)];
      NibbleIs(48, 0);
      NibbleIs(HexDigit(c / 16), c / 16);
      NibbleIs(HexDigit(c % 16), c % 16);
      ControlDigits(digits, c / 16, c % 16);
    }
  }

  lemma ControlDigits(digits: Text, a: nat, b: nat)
    requires |digits| == 4 && Nibble(digits[0], 0) && Nibble(digits[1], 0) && Nibble(digits[2], a) &&
      Nibble(digits[3], b)
    ensures Hexadecimal(digits, a * 16 + b)
  {
    hide Nibble;
    assert a * 16 + b == 0 * 4096 + 0 * 256 + a * 16 + b;
  }

  lemma {:induction false} PiecesForIs(s: Text)
    ensures PiecesText(PiecesFor(s)) == EscapeAll(s) && PiecesBytes(PiecesFor(s)) == s
    ensures forall i | 0 <= i < |s| :: StandardPiece(PiecesFor(s)[i])
  {
    hide StandardPiece, PieceFor, PieceText, PieceBytes, Escape;
    forall i | 0 <= i < |s|
      ensures StandardPiece(PiecesFor(s)[i])
    {
      PieceForIs(s[i]);
    }
    if s != [] {
      PiecesForIs(s[1..]);
      PieceForIs(s[0]);
      assert PiecesFor(s)[1..] == PiecesFor(s[1..]);
      assert s == [s[0]] + s[1..];
    }
  }

  lemma OneExtra(b: Byte)
    ensures ExtraAll([b]) == Extra(b)
  {
    assert [b][1..] == [];
  }

  lemma Utf8Extra(code: nat)
    requires code <= 0x10FFFF
    ensures if code < 0x80 then ExtraAll(Utf8(code)) <= 5 && |Utf8(code)| == 1 else ExtraAll(Utf8(code)) == 0
  {
    if code < 0x80 {
      OneExtra(code);
    } else {
      PlainExtra(Utf8(code));
    }
  }

  /** No piece of RFC 8259 is shorter than what is printed for its bytes. */
  lemma PieceNoShorter(p: Piece)
    requires StandardPiece(p)
    ensures |EscapeAll(PieceBytes(p))| <= |PieceText(p)|
  {
    hide Hexadecimal, Utf8, ExtraAll, EscapeAll, ShortByte;
    EscapedLength(PieceBytes(p));
    FourDigits();
    match p
    case Raw(b) => PlainExtra([b]);
    case Short(letter) => ShortExtra(letter);
    case Group(_, code) => Utf8Extra(code);
    case Pair(_, _, code) => Utf8Extra(code);
  }

  lemma ShortExtra(letter: Byte)
    requires ShortByte(letter).Some?
    ensures ExtraAll([ShortByte(letter).value]) <= 1
  {
    hide ExtraAll;
    ShortByteIs(letter);
    OneExtra(ShortByte(letter).value);
  }

  lemma {:induction false} PlainExtra(s: Text)
    requires forall i | 0 <= i < |s| :: s[i] >= 32 && s[i] != QUOTE && s[i] != BACKSLASH
    ensures ExtraAll(s) == 0
  {
    if s != [] {
      PlainExtra(s[1..]);
    }
  }

  lemma {:induction false} EscapeConcat(a: Text, b: Text)
    ensures EscapeAll(a + b) == EscapeAll(a) + EscapeAll(b)
  {
    if a == [] {
      assert a + b == b;
    } else {
      assert (a + b)[1..] == a[1..] + b;
      EscapeConcat(a[1..], b);
    }
  }

  lemma {:induction false} PiecesNoShorter(ps: seq<Piece>)
    requires forall i | 0 <= i < |ps| :: StandardPiece(ps[i])
    ensures |EscapeAll(PiecesBytes(ps))| <= |PiecesText(ps)|
  {
    if ps != [] {
      hide StandardPiece, PieceBytes, PieceText, EscapeAll;
      PieceNoShorter(ps[0]);
      PiecesNoShorter(ps[1..]);
      EscapeConcat(PieceBytes(ps[0]), PiecesBytes(ps[1..]));
    } else {
      EscapeNothing();
    }
  }

  /** Of all the texts that RFC 8259 has for a string, none is shorter than the one that is printed. */
  lemma QuoteIsShortest(l: Literal, post: Text)
    requires StandardLiteral(l)
    ensures |Quote(PiecesBytes(l.pieces)) + post| <= |SpellLiteral(l, post)|
  {
    hide StandardPiece, EscapeAll, PiecesBytes, PiecesText;
    PiecesNoShorter(l.pieces);
    QuoteLength(PiecesBytes(l.pieces));
  }

  // ----- numbers

  lemma DecimalStandard(n: int)
    requires Int32(n)
    ensures StandardNumber(Decimal(n)) && |Decimal(n)| <= 63
  {
    hide Digits;
    SignBytes();
    var minus: Text := if n < 0 then Ascii("-") else [];
    var whole := Digits(if n < 0 then -n else n);
    DigitsHead(if n < 0 then -n else n);
    assert Power10(10) == 10_000_000_000;
    DigitsLength(if n < 0 then -n else n, 10);
    assert Decimal(n) == minus + whole + [] + [];
  }

  // ----- values

  /** The blank in front of a line of an object. */
  function Line(depth: nat, format: bool): Text {
    LineEnd(format) + Indentation(depth, format)
  }

  /** How the text of a tree derives. */
  function NodeFor(j: Json, depth: nat, format: bool): Node
    decreases j, 0
  {
    match j
    case False => FalseWord
    case True => TrueWord
    case Number(n) => Numeral(Decimal(n), n)
    case String(s) => Quoted(Literal(EscapeAll(s), PiecesFor(s)))
    case Array(items) => List([], SlotsFor(items, true, depth + 1, format))
    case Object(members, _) =>
      Record(if members == [] then Line(depth, format) else [], FieldsFor(members, depth, format))
    case _ => NullWord
  }

  function SlotsFor(items: seq<Json>, first: bool, depth: nat, format: bool): (r: seq<Slot>)
    ensures |r| == |items|
    decreases items
  {
    if items == [] then []
    else
      var slot := Slot(if first then [] else ItemGap(format), NodeFor(items[0], depth, format), []);
      [slot] + SlotsFor(items[1..], false, depth, format)
  }

  function FieldsFor(ms: seq<Member>, depth: nat, format: bool): (r: seq<Field>)
    ensures |r| == |ms|
    decreases ms
  {
    if ms == [] then []
    else [FieldFor(ms[0], |ms| == 1, depth, format)] + FieldsFor(ms[1..], depth, format)
  }

  function FieldFor(m: Member, last: bool, depth: nat, format: bool): Field
    decreases m
  {
    Field(Line(depth + 1, format), Literal(EscapeAll(m.key), PiecesFor(m.key)), [],
      Slot(if format then [TAB] else [], NodeFor(m.value, depth + 1, format), if last then Line(depth, format) else []))
  }

  lemma LineStandard(depth: nat, format: bool)
    ensures StandardBlank(Line(depth, format))
  {}

  lemma LiteralFor(s: Text)
    ensures StandardLiteral(Literal(EscapeAll(s), PiecesFor(s)))
    ensures NulFree(s) ==> LiteralText(Literal(EscapeAll(s), PiecesFor(s))) == s
    ensures forall post :: SpellLiteral(Literal(EscapeAll(s), PiecesFor(s)), post) == Quote(s) + post
  {
    hide EscapeAll, StandardPiece;
    PiecesForIs(s);
    if NulFree(s) {
      CStringWhole(s);
    }
    forall post
      ensures SpellLiteral(Literal(EscapeAll(s), PiecesFor(s)), post) == Quote(s) + post
    {}
  }

  /** A tree that can be printed: its text, its meaning and its derivation. */
  ghost predicate Printed(j: Json, depth: nat, format: bool, strtod: Strtod) {
    var n := NodeFor(j, depth, format);
    Standard(n, strtod) && Meaning(n) == Fresh(j) && forall post :: Spell(n, post) == Print(j, depth, format) + post
  }

  ghost predicate Printable(j: Json) {
    Printing.Plain(j) && NoInvalid(j)
  }

  lemma {:induction false} NodeForIs(j: Json, depth: nat, format: bool, strtod: Strtod)
    requires Printable(j) && ReadsDecimals(strtod)
    ensures Printed(j, depth, format, strtod)
    decreases j, 1
  {
    hide Ascii, Quote, Decimal, EscapeAll, StandardLiteral, StandardNumber, LiteralText, SpellLiteral, ReadsDecimals;
    WordsAre();
    match j
    case Number(n) =>
      DecimalStandard(n);
      DecimalTruncated(n, strtod);
    case String(s) => LiteralFor(s);
    case Array(items) => ArrayForIs(items, depth, format, strtod);
    case Object(members, _) => ObjectForIs(j, depth, format, strtod);
    case _ =>
  }

  lemma DecimalTruncated(n: int, strtod: Strtod)
    requires Int32(n) && ReadsDecimals(strtod)
    ensures Truncated(strtod(Decimal(n)).1, n)
  {
    assert strtod(Decimal(n)) == (|Decimal(n)|, n as real);
  }

  lemma ArrayGood(items: seq<Json>)
    requires Printable(Array(items))
    ensures forall i | 0 <= i < |items| :: Printable(items[i])
  {
    assert PlainItems(items);
  }

  lemma ObjectGood(j: Json)
    requires j.Object? && Printable(j)
    ensures forall i | 0 <= i < |j.members| :: NulFree(j.members[i].key) && Printable(j.members[i].value)
  {
    assert PlainMembers(j.members);
  }

  lemma {:induction false} ArrayForIs(items: seq<Json>, depth: nat, format: bool, strtod: Strtod)
    requires Printable(Array(items)) && ReadsDecimals(strtod)
    ensures Printed(Array(items), depth, format, strtod)
    decreases items, 2
  {
    hide Print, Spell, SpellItems, PrintItems, ReadsDecimals, Fresh, Printable, StandardSlot, ItemsText;
    var slots := SlotsFor(items, true, depth + 1, format);
    var n := List([], slots);
    ArrayGood(items);
    SlotsForIs(items, true, depth + 1, format, strtod);
    assert Fresh(Array(items)).items == ItemsMeaning(slots) by { FreshItems(items); }
    FreshArray(items);
    forall post
      ensures Spell(n, post) == Print(Array(items), depth, format) + post
    {
      ArrayTextFor(items, depth, format, strtod, post);
    }
  }

  lemma {:induction false} ArrayTextFor(items: seq<Json>, depth: nat, format: bool, strtod: Strtod, post: Text)
    requires (forall i | 0 <= i < |items| :: Printable(items[i])) && ReadsDecimals(strtod)
    ensures Spell(List([], SlotsFor(items, true, depth + 1, format)), post) == Print(Array(items), depth, format) + post
    decreases items, 1
  {
    hide Print, Spell, SpellItems, PrintItems, ReadsDecimals, Printable;
    var slots := SlotsFor(items, true, depth + 1, format);
    ArrayTextIs(items, depth, format, post);
    ListText(slots, post);
    if items == [] {
      NoItems(depth + 1, format);
      assert ItemsText([], depth + 1, format, post) == [CLOSE_BRACKET] + post;
      assert [] + [CLOSE_BRACKET] + post == [CLOSE_BRACKET] + post;
    } else {
      hide ItemsText;
      SlotsText(items, true, depth + 1, format, strtod, post);
      assert [] + ItemsText(items, depth + 1, format, post) == ItemsText(items, depth + 1, format, post);
    }
  }

  lemma FreshItems(items: seq<Json>)
    ensures Fresh(Array(items)).Array? && |Fresh(Array(items)).items| == |items|
    ensures forall i | 0 <= i < |items| :: Fresh(Array(items)).items[i] == Fresh(items[i])
  {}

  lemma FreshArray(items: seq<Json>)
    ensures Fresh(Array(items)) == Array(Fresh(Array(items)).items)
  {}

  lemma ArrayTextIs(items: seq<Json>, depth: nat, format: bool, post: Text)
    ensures Print(Array(items), depth, format) + post == [OPEN_BRACKET] + ItemsText(items, depth + 1, format, post)
  {
    hide PrintItems;
  }

  lemma ListText(slots: seq<Slot>, post: Text)
    ensures Spell(List([], slots), post) ==
      [OPEN_BRACKET] + if slots == [] then [] + [CLOSE_BRACKET] + post else SpellItems(slots, post)
  {
    hide SpellItems;
  }

  lemma {:induction false} SlotsForIs(items: seq<Json>, first: bool, depth: nat, format: bool, strtod: Strtod)
    requires (forall i | 0 <= i < |items| :: Printable(items[i])) && ReadsDecimals(strtod)
    ensures var slots := SlotsFor(items, first, depth, format);
      forall i | 0 <= i < |items| ::
        StandardSlot(slots[i], strtod) && Meaning(slots[i].node) == Fresh(items[i])
    decreases items, 0
  {
    hide Standard, Meaning, Fresh, Printable, ReadsDecimals, Print, Spell;
    if items != [] {
      NodeForIs(items[0], depth, format, strtod);
      SlotsForIs(items[1..], false, depth, format, strtod);
      var slots, rest := SlotsFor(items, first, depth, format), SlotsFor(items[1..], false, depth, format);
      assert slots[1..] == rest;
      forall i | 0 <= i < |items|
        ensures StandardSlot(slots[i], strtod) && Meaning(slots[i].node) == Fresh(items[i])
      {
        if i > 0 {
          assert slots[i] == rest[i-1] && items[i] == items[1..][i-1];
        }
      }
    }
  }

  lemma {:induction false} SlotsText(items: seq<Json>, first: bool, depth: nat, format: bool,
      strtod: Strtod, post: Text)
    requires items != [] && (forall i | 0 <= i < |items| :: Printable(items[i])) && ReadsDecimals(strtod)
    ensures SpellItems(SlotsFor(items, first, depth, format), post) ==
      (if first then [] else ItemGap(format)) + ItemsText(items, depth, format, post)
    decreases items, 0
  {
    hide Spell, Print, SpellItems, ItemsText, Standard, Printable, ReadsDecimals, NodeFor;
    var slots, rest := SlotsFor(items, first, depth, format), SlotsFor(items[1..], false, depth, format);
    assert slots[1..] == rest;
    GrammarProofs.ItemsHead(slots, post);
    ItemsTextHead(items, depth, format, post);
    var behind := BehindItem(rest, post);
    if items[1..] != [] {
      SlotsText(items[1..], false, depth, format, strtod, post);
    }
    assert [] + behind == behind == AfterItem(items[1..], depth, format, post);
    NodeForIs(items[0], depth, format, strtod);
  }

  lemma {:induction false} ObjectForIs(j: Json, depth: nat, format: bool, strtod: Strtod)
    requires j.Object? && Printable(j) && ReadsDecimals(strtod)
    ensures Printed(j, depth, format, strtod)
    decreases j, 0
  {
    hide Print, Spell, Standard, Meaning, Fresh, Printable, ReadsDecimals, FieldsFor, Line;
    var ms := j.members;
    var blank, fields := if ms == [] then Line(depth, format) else [], FieldsFor(ms, depth, format);
    assert NodeFor(j, depth, format) == Record(blank, fields);
    ObjectGood(j);
    LineStandard(depth, format);
    FieldsForIs(ms, depth, format, strtod);
    FreshObject(j);
    RecordMeans(blank, fields, ms, strtod);
    forall post
      ensures Spell(Record(blank, fields), post) == Print(j, depth, format) + post
    {
      ObjectTextFor(ms, depth, format, strtod, post);
      TailText(j, depth, format, post);
    }
  }

  lemma RecordMeans(blank: Text, fields: seq<Field>, ms: seq<Member>, strtod: Strtod)
    requires StandardBlank(blank) && |fields| == |ms|
    requires forall i | 0 <= i < |ms| ::
      && StandardField(fields[i], strtod)
      && Entry(LiteralText(fields[i].name), Meaning(fields[i].value.node)) == Entry(ms[i].key, Fresh(ms[i].value))
    ensures Standard(Record(blank, fields), strtod)
    ensures Meaning(Record(blank, fields)) == Object(FreshMembers(ms))
  {
    hide StandardField, LiteralText;
    assert FieldsMeaning(fields) == FreshMembers(ms);
  }

  lemma {:induction false} ObjectTextFor(ms: seq<Member>, depth: nat, format: bool, strtod: Strtod, post: Text)
    requires (forall i | 0 <= i < |ms| :: NulFree(ms[i].key) && Printable(ms[i].value)) && ReadsDecimals(strtod)
    ensures Spell(Record(if ms == [] then Line(depth, format) else [], FieldsFor(ms, depth, format)), post) ==
      Print(Object(ms), depth, format) + post
    decreases ms, 2
  {
    hide Print, Spell, SpellFields, PrintMembers, ReadsDecimals, Printable, MembersText, Line, LineEnd, FieldFor;
    var fields := FieldsFor(ms, depth, format);
    ObjectTextIs(ms, depth, format, post);
    RecordText(if ms == [] then Line(depth, format) else [], fields, post);
    if ms == [] {
      NoMembersText(depth, format, post);
      EmptyLine(depth, format, post);
    } else {
      FieldsText(ms, depth, format, strtod, post);
    }
  }

  lemma FreshObject(j: Json)
    requires j.Object?
    ensures Fresh(j) == Object(FreshMembers(j.members))
  {}

  lemma TailText(j: Json, depth: nat, format: bool, post: Text)
    requires j.Object?
    ensures Print(j, depth, format) + post == Print(Object(j.members), depth, format) + post
  {}

  lemma RecordText(blank: Text, fields: seq<Field>, post: Text)
    ensures Spell(Record(blank, fields), post) ==
      [OPEN_BRACE] + if fields == [] then blank + ([CLOSE_BRACE] + post) else SpellFields(fields, post)
  {
    hide SpellFields;
  }

  lemma EmptyLine(depth: nat, format: bool, post: Text)
    ensures AfterMember([], depth, format, post) == Line(depth, format) + ([CLOSE_BRACE] + post)
  {}

  lemma {:induction false} FieldsForIs(ms: seq<Member>, depth: nat, format: bool, strtod: Strtod)
    requires (forall i | 0 <= i < |ms| :: NulFree(ms[i].key) && Printable(ms[i].value)) && ReadsDecimals(strtod)
    ensures var fields := FieldsFor(ms, depth, format);
      forall i | 0 <= i < |ms| ::
        && StandardField(fields[i], strtod)
        && Entry(LiteralText(fields[i].name), Meaning(fields[i].value.node)) == Entry(ms[i].key, Fresh(ms[i].value))
    decreases ms, 1
  {
    hide StandardField, Meaning, Fresh, Printable, ReadsDecimals, LiteralText, FieldFor;
    if ms != [] {
      FieldForIs(ms[0], |ms| == 1, depth, format, strtod);
      FieldsForIs(ms[1..], depth, format, strtod);
      var fields, rest := FieldsFor(ms, depth, format), FieldsFor(ms[1..], depth, format);
      forall i | 0 <= i < |ms|
        ensures StandardField(fields[i], strtod)
        ensures Entry(LiteralText(fields[i].name), Meaning(fields[i].value.node)) ==
          Entry(ms[i].key, Fresh(ms[i].value))
      {
        if i > 0 {
          assert fields[i] == rest[i-1] && ms[i] == ms[1..][i-1];
        }
      }
    }
  }

  function FieldText(m: Member, last: bool, depth: nat, format: bool, behind: Text): Text {
    Line(depth + 1, format) + (Quote(m.key) + ([COLON] + ((if format then [TAB] else []) +
      (Print(m.value, depth + 1, format) + ((if last then Line(depth, format) else []) + behind)))))
  }

  lemma {:induction false} FieldForIs(m: Member, last: bool, depth: nat, format: bool, strtod: Strtod)
    requires NulFree(m.key) && Printable(m.value) && ReadsDecimals(strtod)
    ensures var f := FieldFor(m, last, depth, format);
      && StandardField(f, strtod) && LiteralText(f.name) == m.key && Meaning(f.value.node) == Fresh(m.value)
      && forall behind :: SpellField(f, behind) == FieldText(m, last, depth, format, behind)
    decreases m, 0
  {
    hide Spell, Print, Standard, Meaning, Fresh, Printable, ReadsDecimals, Line, LiteralText, StandardLiteral,
      SpellField, FieldText;
    LineStandard(depth, format);
    LineStandard(depth + 1, format);
    LiteralFor(m.key);
    NodeForIs(m.value, depth + 1, format, strtod);
    var f := FieldFor(m, last, depth, format);
    assert StandardSlot(f.value, strtod);
    forall behind
      ensures SpellField(f, behind) == FieldText(m, last, depth, format, behind)
    {
      FieldSpelled(m, last, depth, format, behind);
    }
  }

  lemma FieldSpelled(m: Member, last: bool, depth: nat, format: bool, behind: Text)
    requires var tail := (if last then Line(depth, format) else []) + behind;
      Spell(NodeFor(m.value, depth + 1, format), tail) == Print(m.value, depth + 1, format) + tail
    ensures SpellField(FieldFor(m, last, depth, format), behind) == FieldText(m, last, depth, format, behind)
  {
    hide Spell, Print, Quote, Line, SpellLiteral, NodeFor, EscapeAll, PiecesFor;
    var f := FieldFor(m, last, depth, format);
    var value := SpellSlot(f.value, behind);
    LiteralFor(m.key);
    assert f.between + ([COLON] + value) == [COLON] + value;
    assert SpellLiteral(f.name, [COLON] + value) == Quote(m.key) + ([COLON] + value);
  }

  lemma {:induction false} FieldsText(ms: seq<Member>, depth: nat, format: bool, strtod: Strtod, post: Text)
    requires ms != [] && ReadsDecimals(strtod)
    requires forall i | 0 <= i < |ms| :: NulFree(ms[i].key) && Printable(ms[i].value)
    ensures SpellFields(FieldsFor(ms, depth, format), post) == LineEnd(format) + MembersText(ms, depth, format, post)
    decreases ms, 1
  {
    hide SpellFields, SpellField, MembersText, Printable, ReadsDecimals, Print, Quote, LineEnd, Indentation,
      StandardField, Meaning, Fresh, LiteralText;
    var last := |ms| == 1;
    var fields, rest := FieldsFor(ms, depth, format), FieldsFor(ms[1..], depth, format);
    assert fields[1..] == rest;
    FieldsHead(fields, post);
    var behind := BehindField(rest, post);
    FieldForIs(ms[0], last, depth, format, strtod);
    MembersTextHead(ms, depth, format, post);
    if last {
      EmptyLine(depth, format, post);
      assert ms[1..] == [];
    } else {
      FieldsText(ms[1..], depth, format, strtod, post);
      assert [] + behind == behind;
    }
    assert (if last then Line(depth, format) else []) + behind == AfterMember(ms[1..], depth, format, post);
    Grouped(LineEnd(format), Indentation(depth + 1, format), Quote(ms[0].key) +
      AfterName(ms[0], ms[1..], depth, format, post));
  }

  lemma Grouped(a: Text, b: Text, c: Text)
    ensures (a + b) + c == a + (b + c)
  {}

  /** Printing gives text of RFC 8259, in both formats, and that text derives the tree. */
  lemma PrintedIsStandard(j: Json, format: bool, strtod: Strtod)
    requires Printing.Plain(j) && NoInvalid(j) && ReadsDecimals(strtod)
    ensures exists n :: Standard(n, strtod) && Spell(n, []) == Print(j, 0, format) && Meaning(n) == Fresh(j)
  {
    hide Print, Spell, Standard, Meaning, Fresh, ReadsDecimals, NodeFor;
    NodeForIs(j, 0, format, strtod);
    assert Print(j, 0, format) + [] == Print(j, 0, format);
    assert Spell(NodeFor(j, 0, format), []) == Print(j, 0, format) + [];
  }
}
