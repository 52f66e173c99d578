/** Which texts the parser accepts, and that all of RFC 8259 is among them. */
module GrammarResults {
  import opened Basics
  import opened Strings
  import opened Json
  import opened Printing
  import opened Unicode
  import opened Parsing
  import opened ParsingProofs
  import opened ParsePrint
  import opened Grammar
  import opened GrammarTexts
  import opened GrammarProofs

  // ----- what is in front of the value, and behind it

  lemma {:induction false} OnlyBlanks(s: Text)
    ensures Blank(s) <==> DropSpace(s) == []
    ensures s != [] && Blank(s) ==> SkipSpace(s) == [s[|s|-1]]
    ensures s != [] && !Blank(s) ==> Visible(SkipSpace(s))
    decreases |s|
  {
    if s != [] && s[0] <= 32 {
      OnlyBlanks(s[1..]);
      assert s == [s[0]] + s[1..];
    }
  }

  lemma MarkSkipped(mark: Text, t: Text)
    requires Opens(mark, [], mark + t) && (t != [] ==> t[0] != 0xEF)
    ensures SkipBom(mark + t) == t
  {
    var content := mark + t;
    if mark == [] {
      assert content == t;
      if t != [] {
        NoBom(t);
      }
    } else {
      assert content[..3] == BYTE_ORDER_MARK && content[3..] == t;
    }
  }

  lemma MarkOf(content: Text) returns (mark: Text)
    ensures content == mark + SkipBom(content) && Opens(mark, [], content)
  {
    mark := content[..|content| - |SkipBom(content)|];
  }

  /** A text that derives is accepted, with the value it derives. */
  lemma DerivedIsParsed(content: Text, requireNul: bool, strtod: Strtod, j: Json, behind: Text)
    requires Derives(content, requireNul, strtod, j, behind)
    ensures Parse(content, requireNul, strtod) == Ok(j, if requireNul then [0] else behind)
  {
    hide Spell, SoundBefore, Meaning, ParseValue, SkipSpace, SkipBom;
    var mark, blank, n :|
      && content == mark + (blank + Spell(n, behind)) && Opens(mark, blank, content) && Closes(behind, requireNul)
      && SoundBefore(n, behind, strtod) && Meaning(n) == j && Depth(j) <= NESTING_LIMIT;
    var t := Spell(n, behind);
    SpellVisible(n, behind, strtod);
    MarkSkipped(mark, blank + t);
    SkipAhead(blank, t);
    Accepted(n, behind, 0, strtod);
    OnlyBlanks(behind);
  }

  /** A text that is accepted derives. */
  lemma ParsedIsDerived(content: Text, requireNul: bool, strtod: Strtod) returns (behind: Text)
    requires Parse(content, requireNul, strtod).Ok?
    ensures var r := Parse(content, requireNul, strtod);
      Derives(content, requireNul, strtod, r.value, behind) && r.rest == if requireNul then [0] else behind
  {
    hide Spell, SoundBefore, Meaning, ParseValue, SkipSpace, SkipBom, GoodTree;
    var s := SkipBom(content);
    var v := ParseValue(SkipSpace(s), 0, strtod);
    var n := Derived(SkipSpace(s), 0, strtod);
    behind := v.rest;
    SpellVisible(n, behind, strtod);
    var blank := SkippedBlanks(s);
    var mark := MarkOf(content);
    ValuePromise(SkipSpace(s), 0, strtod);
    GoodDepth(v.value);
    if requireNul {
      OnlyBlanks(behind);
      NothingSkipped(behind);
    }
    assert content == mark + (blank + Spell(n, behind));
    assert Closes(behind, requireNul);
    assert Opens(mark, blank, content);
    assert Derives(content, requireNul, strtod, v.value, behind);
  }

  lemma NothingSkipped(s: Text)
    ensures SkipSpace(s) == [] <==> s == []
  {}

  lemma GoodDepth(j: Json)
    requires GoodTree(j, 0)
    ensures Depth(j) <= NESTING_LIMIT
  {}

  /** `cJSON_ParseWithLengthOpts` accepts a content exactly if it derives, and then gives the value it derives and
   where the text ends. So no content derives two values. */
  lemma ParsesExactly(content: Text, requireNul: bool, strtod: Strtod, j: Json, rest: Text)
    ensures Parse(content, requireNul, strtod) == Ok(j, rest) <==>
      exists behind :: Derives(content, requireNul, strtod, j, behind) && rest == if requireNul then [0] else behind
  {
    hide Derives, Parse;
    if Parse(content, requireNul, strtod) == Ok(j, rest) {
      var behind := ParsedIsDerived(content, requireNul, strtod);
    }
    forall behind | Derives(content, requireNul, strtod, j, behind)
      ensures Parse(content, requireNul, strtod) == Ok(j, if requireNul then [0] else behind)
    {
      DerivedIsParsed(content, requireNul, strtod, j, behind);
    }
  }

  lemma ParsesWhatDerives(content: Text, requireNul: bool, strtod: Strtod)
    ensures var r := Parse(content, requireNul, strtod);
      if r.Ok? then exists behind :: Derives(content, requireNul, strtod, r.value, behind)
      else forall j, behind :: !Derives(content, requireNul, strtod, j, behind)
  {
    hide Derives, Parse;
    if Parse(content, requireNul, strtod).Ok? {
      var behind := ParsedIsDerived(content, requireNul, strtod);
    }
    forall j, behind | Derives(content, requireNul, strtod, j, behind)
      ensures Parse(content, requireNul, strtod).Ok?
    {
      DerivedIsParsed(content, requireNul, strtod, j, behind);
    }
  }

  // ----- RFC 8259

  /** Section 2: the four blanks. */
  predicate StandardBlank(ws: Text) {
    forall i | 0 <= i < |ws| :: ws[i] in {SPACE, TAB, NEWLINE, 13}
  }

  predicate AllDigits(s: Text) {
    s != [] && forall i | 0 <= i < |s| :: 48 <= s[i] <= 57
  }

  /** Section 6: [ minus ] int [ frac ] [ exp ]. */
  ghost predicate StandardNumber(text: Text) {
    exists minus, whole, frac, exp ::
      && text == minus + whole + frac + exp
      && (minus == [] || minus == Ascii("-"))
      && AllDigits(whole) && (whole[0] == 48 ==> |whole| == 1)
      && (frac == [] || StandardFraction(frac)) && (exp == [] || StandardExponent(exp))
  }

  predicate StandardFraction(frac: Text) {
    frac != [] && frac[..1] == Ascii(".") && AllDigits(frac[1..])
  }

  predicate StandardExponent(exp: Text) {
    && |exp| >= 2 && (exp[..1] == Ascii("e") || exp[..1] == Ascii("E"))
    && (AllDigits(exp[1..]) || ((exp[1..2] == Ascii("+") || exp[1..2] == Ascii("-")) && AllDigits(exp[2..])))
  }

  /** Section 7: a byte that needs no escaping, an escape sequence of a letter, of a code point outside the surrogates,
   or of a surrogate pair. */
  ghost predicate StandardPiece(p: Piece) {
    match p
    case Raw(b) => b >= 32 && b != QUOTE && b != BACKSLASH
    case Short(letter) => ShortByte(letter).Some?
    case Group(digits, code) => Hexadecimal(digits, code) && Scalar(code)
    case Pair(_, _, _) => PieceSound(p)
  }

  ghost predicate StandardLiteral(l: Literal) {
    PiecesText(l.pieces) == l.body && forall i | 0 <= i < |l.pieces| :: StandardPiece(l.pieces[i])
  }

  /** The grammar of RFC 8259. A number longer than 63 bytes is not read whole. */
  ghost predicate Standard(n: Node, strtod: Strtod)
    decreases n
  {
    match n
    case Numeral(text, n) => StandardNumber(text) && |text| <= 63 && Truncated(strtod(text).1, n)
    case Quoted(literal) => StandardLiteral(literal)
    case List(blank, items) => StandardBlank(blank) && forall i | 0 <= i < |items| :: StandardSlot(items[i], strtod)
    case Record(blank, fields) => StandardBlank(blank) && forall i | 0 <= i < |fields| ::
      StandardField(fields[i], strtod)
    case _ => true
  }

  ghost predicate StandardSlot(slot: Slot, strtod: Strtod)
    decreases slot
  {
    StandardBlank(slot.before) && Standard(slot.node, strtod) && StandardBlank(slot.after)
  }

  ghost predicate StandardField(f: Field, strtod: Strtod)
    decreases f
  {
    && StandardBlank(f.before) && StandardLiteral(f.name) && StandardBlank(f.between) && StandardSlot(f.value, strtod)
  }

  /** What is asked of `strtod`: it takes the whole of every number of RFC 8259. */
  ghost predicate TakesNumbers(strtod: Strtod) {
    forall text | StandardNumber(text) :: strtod(text).0 == |text|
  }

  lemma NumberBytes(text: Text)
    requires StandardNumber(text)
    ensures text != [] && (text[0] == MINUS || 48 <= text[0] <= 57)
    ensures forall i | 0 <= i < |text| :: NumberByte(text[i])
  {
    hide NumberByte, StandardFraction, StandardExponent, Ascii;
    var minus, whole, frac, exp :|
      && text == minus + whole + frac + exp
      && (minus == [] || minus == Ascii("-"))
      && AllDigits(whole) && (whole[0] == 48 ==> |whole| == 1)
      && (frac == [] || StandardFraction(frac)) && (exp == [] || StandardExponent(exp));
    SignBytes();
    DigitBytes(whole);
    FractionBytes(frac);
    ExponentBytes(exp);
  }

  lemma DigitBytes(s: Text)
    requires AllDigits(s)
    ensures forall i | 0 <= i < |s| :: NumberByte(s[i])
    ensures NumberByte(45)
  {}

  lemma SignBytes()
    ensures Ascii("-") == [45] && Ascii("+") == [43] && Ascii(".") == [46] && Ascii("e") == [101] && Ascii("E") == [69]
  {}

  lemma FractionBytes(frac: Text)
    requires frac == [] || StandardFraction(frac)
    ensures forall i | 0 <= i < |frac| :: NumberByte(frac[i])
  {
    SignBytes();
    if frac != [] {
      assert frac[0] == frac[..1][0];
      assert forall i | 1 <= i < |frac| :: frac[i] == frac[1..][i-1];
    }
  }

  lemma ExponentBytes(exp: Text)
    requires exp == [] || StandardExponent(exp)
    ensures forall i | 0 <= i < |exp| :: NumberByte(exp[i])
  {
    SignBytes();
    if exp != [] {
      assert exp[0] == exp[..1][0];
      if AllDigits(exp[1..]) {
        assert forall i | 1 <= i < |exp| :: exp[i] == exp[1..][i-1];
      } else {
        assert exp[1] == exp[1..2][0];
        assert forall i | 2 <= i < |exp| :: exp[i] == exp[2..][i-2];
      }
    }
  }

  lemma StandardNumeral(text: Text, n: int, strtod: Strtod)
    requires StandardNumber(text) && |text| <= 63 && Truncated(strtod(text).1, n) && strtod(text).0 == |text|
    ensures NumeralSound(text, n, [], strtod)
  {
    hide Truncated, NumberByte, InNumeral, StandardNumber;
    NumberBytes(text);
    forall i | 0 <= i < |text|
      ensures InNumeral(text[i])
    {
      InNumeralIs(text[i]);
    }
    assert text + [] == text;
    assert Run(text, text + []);
  }

  lemma {:induction false} StandardUnquoted(ps: seq<Piece>)
    requires forall i | 0 <= i < |ps| :: StandardPiece(ps[i])
    ensures Unquoted(PiecesText(ps)) && PiecesSound(ps)
  {
    if ps != [] {
      hide StandardPiece, PieceSound, PieceText, Unquoted;
      StandardUnquoted(ps[1..]);
      StandardPieceSound(ps[0]);
      PieceUnquoted(ps[0], PiecesText(ps[1..]));
      assert forall i | 1 <= i < |ps| :: ps[i] == ps[1..][i-1];
    } else {
      NoPieces([]);
    }
  }

  lemma StandardPieceSound(p: Piece)
    requires StandardPiece(p)
    ensures PieceSound(p)
  {}

  lemma PieceUnquoted(p: Piece, rest: Text)
    requires StandardPiece(p) && Unquoted(rest)
    ensures Unquoted(PieceText(p) + rest)
  {
    hide Hexadecimal, ShortByte, Nibble, Unquoted;
    match p
    case Raw(b) => PlainUnquoted([b], rest);
    case Short(letter) => EscapeUnquoted(letter, rest);
    case Group(digits, code) =>
      HexUnquoted(digits, code, rest);
      EscapeUnquoted(117, digits + rest);
      assert PieceText(p) + rest == [BACKSLASH, 117] + (digits + rest);
    case Pair(high, low, code) => PairUnquoted(high, low, code, rest);
  }

  lemma PairUnquoted(high: Text, low: Text, code: nat, rest: Text)
    requires PieceSound(Pair(high, low, code)) && Unquoted(rest)
    ensures Unquoted(PieceText(Pair(high, low, code)) + rest)
  {
    hide Hexadecimal, Unquoted;
    var more := [BACKSLASH, 117] + (low + rest);
    HexUnquoted(low, 0xDC00 + (code - 0x10000) % 0x400, rest);
    EscapeUnquoted(117, low + rest);
    HexUnquoted(high, 0xD800 + (code - 0x10000) / 0x400, more);
    EscapeUnquoted(117, high + more);
    assert PieceText(Pair(high, low, code)) + rest == [BACKSLASH, 117] + (high + more);
  }

  lemma EscapeUnquoted(letter: Byte, rest: Text)
    requires Unquoted(rest)
    ensures Unquoted([BACKSLASH, letter] + rest)
  {
    var s := [BACKSLASH, letter] + rest;
    assert s[0] == BACKSLASH && s[2..] == rest;
  }

  lemma HexUnquoted(digits: Text, code: nat, rest: Text)
    requires Hexadecimal(digits, code) && Unquoted(rest)
    ensures Unquoted(digits + rest)
  {
    var a: nat, b: nat, c: nat, d: nat :|
      Nibble(digits[0], a) && Nibble(digits[1], b) && Nibble(digits[2], c) && Nibble(digits[3], d) &&
      code == a * 4096 + b * 256 + c * 16 + d;
    NibbleIs(digits[0], a);
    NibbleIs(digits[1], b);
    NibbleIs(digits[2], c);
    NibbleIs(digits[3], d);
    hide Unquoted, Nibble;
    PlainUnquoted(digits, rest);
  }

  lemma {:induction false} PlainUnquoted(p: Text, rest: Text)
    requires Unquoted(rest) && forall i | 0 <= i < |p| :: p[i] != QUOTE && p[i] != BACKSLASH
    ensures Unquoted(p + rest)
  {
    if p == [] {
      assert p + rest == rest;
    } else {
      PlainUnquoted(p[1..], rest);
      assert (p + rest)[1..] == p[1..] + rest;
    }
  }

  lemma StandardLiteralSound(l: Literal)
    requires StandardLiteral(l)
    ensures LiteralSound(l)
  {
    hide StandardPiece, PieceSound, PiecesText, Unquoted;
    StandardUnquoted(l.pieces);
  }

  lemma FieldStandard(f: Field, strtod: Strtod)
    requires StandardField(f, strtod)
    ensures StandardLiteral(f.name) && Standard(f.value.node, strtod)
    ensures Blank(f.before) && Blank(f.between) && Blank(f.value.before) && Blank(f.value.after)
  {
    hide StandardLiteral;
  }

  /** Whatever RFC 8259 lets stand, the library lets stand, with the same meaning. */
  lemma {:induction false} StandardSound(n: Node, strtod: Strtod)
    requires Standard(n, strtod) && TakesNumbers(strtod)
    ensures Sound(n, strtod)
    decreases n, 0
  {
    hide StandardNumber, StandardLiteral, LiteralSound, NumeralSound, Truncated;
    match n
    case Numeral(text, k) => StandardNumeral(text, k, strtod);
    case Quoted(literal) => StandardLiteralSound(literal);
    case List(_, items) =>
      forall i | 0 <= i < |items|
        ensures SlotSound(items[i], strtod)
      {
        StandardSound(items[i].node, strtod);
      }
    case Record(_, fields) =>
      forall i | 0 <= i < |fields|
        ensures FieldSound(fields[i], strtod)
      {
        FieldStandard(fields[i], strtod);
        StandardLiteralSound(fields[i].name);
        StandardSound(fields[i].value.node, strtod);
        assert SlotSound(fields[i].value, strtod);
      }
    case _ =>
  }

  /**
   Every text of RFC 8259 whose numbers have at most 63 bytes and that is nested at most
   1000 deep is accepted, with blanks around it and the terminator behind, and gives the
   value that the RFC's grammar gives it. (A text with a zero in it ends there.)
   */
  lemma StandardIsParsed(before: Text, n: Node, after: Text, strtod: Strtod)
    requires StandardBlank(before) && Standard(n, strtod) && StandardBlank(after) && TakesNumbers(strtod)
    requires Depth(Meaning(n)) <= NESTING_LIMIT
    ensures Parse(before + Spell(n, after + [0]), true, strtod) == Ok(Meaning(n), [0])
    ensures Parse(before + Spell(n, after), false, strtod) == Ok(Meaning(n), after)
  {
    hide Spell, Meaning, Sound, Standard, Parse, SoundBefore;
    StandardSound(n, strtod);
    Alone(n, after + [0], strtod);
    Alone(n, after, strtod);
    StandardDerives(before, n, after + [0], true, strtod);
    StandardDerives(before, n, after, false, strtod);
    DerivedIsParsed(before + Spell(n, after + [0]), true, strtod, Meaning(n), after + [0]);
    DerivedIsParsed(before + Spell(n, after), false, strtod, Meaning(n), after);
  }

  lemma StandardDerives(before: Text, n: Node, behind: Text, requireNul: bool, strtod: Strtod)
    requires StandardBlank(before) && SoundBefore(n, behind, strtod) && Depth(Meaning(n)) <= NESTING_LIMIT
    requires Closes(behind, requireNul)
    ensures Derives(before + Spell(n, behind), requireNul, strtod, Meaning(n), behind)
  {
    hide Spell, Meaning, SoundBefore;
    var content := before + Spell(n, behind);
    assert content == [] + (before + Spell(n, behind));
    assert Opens([], before, content);
  }
}
