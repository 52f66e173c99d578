/** The texts and numbers of the grammar are those that `parse_string` and `parse_number` accept. */
module GrammarTexts {
  import opened Basics
  import opened Strings
  import opened Json
  import opened Printing
  import opened Unicode
  import opened Parsing
  import opened ParsePrint
  import opened Grammar

  // ----- what is written out in the grammar

  lemma WordsAre()
    ensures Ascii("null") == NULL_TEXT && Ascii("false") == FALSE_TEXT && Ascii("true") == TRUE_TEXT
  {}

  lemma ShortByteIs(letter: Byte)
    ensures letter != 117 ==> ShortByte(letter) == if Unescape(letter) == 0 then None else Some(Unescape(letter))
    ensures ShortByte(117) == None
  {
    assert Ascii("b")[0] == 98 && Ascii("t")[0] == 116 && Ascii("n")[0] == 110;
    assert Ascii("f")[0] == 102 && Ascii("r")[0] == 114;
  }

  lemma NibbleIs(c: Byte, v: nat)
    ensures Nibble(c, v) <==> HexValue(c) == Some(v)
  {
    var lower, upper := Ascii("0123456789abcdef"), Ascii("0123456789ABCDEF");
    if v < 16 {
      assert lower[v..v+1] == [lower[v]] && upper[v..v+1] == [upper[v]];
      assert lower[v] == if v < 10 then 48 + v else 87 + v;
      assert upper[v] == if v < 10 then 48 + v else 55 + v;
    }
  }

  lemma InNumeralIs(c: Byte)
    ensures InNumeral(c) <==> NumberByte(c)
  {
    assert Ascii("+")[0] == 43 && Ascii("-")[0] == 45 && Ascii(".")[0] == 46;
    assert Ascii("e")[0] == 101 && Ascii("E")[0] == 69;
  }

  // ----- hexadecimal groups

  /** A group has the one value that `parse_hex4` gives it. */
  lemma ReadAsIs(digits: Text, code: nat, tail: Text)
    requires |digits| == 4
    ensures ReadAs(digits, code) <==> Hex4(digits + tail) == code
    ensures Hexadecimal(digits, code) ==> Hex4(digits + tail) == code
    ensures Hex4(digits + tail) != 0 ==> Hexadecimal(digits, Hex4(digits + tail))
  {
    hide Nibble;
    var s := digits + tail;
    assert s[0] == digits[0] && s[1] == digits[1] && s[2] == digits[2] && s[3] == digits[3];
    forall n | Hexadecimal(digits, n)
      ensures n == Hex4(s)
    {
      var a: nat, b: nat, c: nat, d: nat :|
        Nibble(digits[0], a) && Nibble(digits[1], b) && Nibble(digits[2], c) && Nibble(digits[3], d) &&
        n == a * 4096 + b * 256 + c * 16 + d;
      NibbleIs(digits[0], a);
      NibbleIs(digits[1], b);
      NibbleIs(digits[2], c);
      NibbleIs(digits[3], d);
    }
    var a, b, c, d := HexValue(s[0]), HexValue(s[1]), HexValue(s[2]), HexValue(s[3]);
    if a.Some? && b.Some? && c.Some? && d.Some? {
      NibbleIs(digits[0], a.value);
      NibbleIs(digits[1], b.value);
      NibbleIs(digits[2], c.value);
      NibbleIs(digits[3], d.value);
      assert Hexadecimal(digits, Hex4(s));
    } else {
      NoDigits(digits);
    }
  }

  lemma NoDigits(digits: Text)
    requires |digits| == 4
    requires !(forall i | 0 <= i < 4 :: HexValue(digits[i]).Some?)
    ensures forall n :: !Hexadecimal(digits, n)
  {
    hide Nibble;
    forall n
      ensures !Hexadecimal(digits, n)
    {
      if Hexadecimal(digits, n) {
        var a: nat, b: nat, c: nat, d: nat :|
          Nibble(digits[0], a) && Nibble(digits[1], b) && Nibble(digits[2], c) && Nibble(digits[3], d) &&
          n == a * 4096 + b * 256 + c * 16 + d;
        NibbleIs(digits[0], a);
        NibbleIs(digits[1], b);
        NibbleIs(digits[2], c);
        NibbleIs(digits[3], d);
      }
    }
  }

  // ----- what derives is read

  lemma {:induction false} ClosingIs(body: Text, post: Text)
    ensures Unquoted(body) ==> ClosingQuote(body + ([QUOTE] + post)) == |body|
    decreases |body|
  {
    var s := body + ([QUOTE] + post);
    if body != [] {
      assert s[0] == body[0];
      if body[0] == BACKSLASH {
        if |body| > 1 {
          assert s[2..] == body[2..] + ([QUOTE] + post);
          ClosingIs(body[2..], post);
        }
      } else {
        assert s[1..] == body[1..] + ([QUOTE] + post);
        ClosingIs(body[1..], post);
      }
    }
  }

  /** Reading one piece. */
  lemma PieceRead(p: Piece, tail: Text, end: nat)
    requires PieceSound(p) && |PieceText(p)| <= end < |PieceText(p) + tail|
    ensures var s := PieceText(p) + tail;
      Decode(s, end) == Prepend(PieceBytes(p), Decode(tail, end - |PieceText(p)|))
  {
    hide Decode, Utf8, Hex4, ReadAs, Hexadecimal, ShortByte, Unescape;
    var s := PieceText(p) + tail;
    assert s[|PieceText(p)|..] == tail;
    match p
    case Raw(b) => DecodePlainStep(s, end);
    case Short(letter) =>
      ShortByteIs(letter);
      DecodeSequenceStep(s, end);
    case Group(digits, code) =>
      GroupRead(digits, code, tail);
      DecodeSequenceStep(s, end);
    case Pair(high, low, code) =>
      PairRead(high, low, code, tail);
      DecodeSequenceStep(s, end);
  }

  lemma DecodePlainStep(s: Text, end: nat)
    requires 0 < end < |s| && s[0] != BACKSLASH
    ensures Decode(s, end) == Prepend([s[0]], Decode(s[1..], end - 1))
  {}

  lemma GroupRead(digits: Text, code: nat, tail: Text)
    requires ReadAs(digits, code) && Scalar(code)
    ensures |digits| == 4
    ensures var s := [BACKSLASH, 117] + digits + tail;
      forall end | 6 <= end < |s| :: Sequence(s, end) == Some(Conversion(Utf8(code), 6))
  {
    hide Utf8, Hex4, Hexadecimal;
    assert |digits| == 4 by { assert forall n | Hexadecimal(digits, n) :: |digits| == 4 by { FourDigits(); } }
    ReadAsIs(digits, code, tail);
    var s := [BACKSLASH, 117] + digits + tail;
    assert s[2..] == digits + tail;
  }

  lemma FourDigits()
    ensures forall digits, n | Hexadecimal(digits, n) :: |digits| == 4
  {}

  lemma PairRead(high: Text, low: Text, code: nat, tail: Text)
    requires PieceSound(Pair(high, low, code))
    ensures |high| == 4 && |low| == 4
    ensures var s := [BACKSLASH, 117] + high + [BACKSLASH, 117] + low + tail;
      forall end | 12 <= end < |s| :: Sequence(s, end) == Some(Conversion(Utf8(code), 12))
  {
    hide Utf8, Hex4, Hexadecimal;
    FourDigits();
    var s := [BACKSLASH, 117] + high + [BACKSLASH, 117] + low + tail;
    var behind := [BACKSLASH, 117] + low + tail;
    assert s[2..] == high + behind && s[8..] == low + tail && s[6] == BACKSLASH && s[7] == 117;
    ReadAsIs(high, 0xD800 + (code - 0x10000) / 0x400, behind);
    ReadAsIs(low, 0xDC00 + (code - 0x10000) % 0x400, tail);
    PairDigits(code - 0x10000);
  }

  lemma PiecesHead(ps: seq<Piece>, tail: Text)
    requires ps != []
    ensures PiecesText(ps) + tail == PieceText(ps[0]) + (PiecesText(ps[1..]) + tail)
    ensures PiecesText(ps) == PieceText(ps[0]) + PiecesText(ps[1..])
    ensures PiecesBytes(ps) == PieceBytes(ps[0]) + PiecesBytes(ps[1..])
  {
    hide PieceText, PieceBytes;
  }

  /** The pieces end where the literal does, or the last one overhangs. */
  ghost predicate Fill(ps: seq<Piece>, end: int) {
    end == |PiecesText(ps)| || (end == |PiecesText(ps)| - 1 && ps != [] && ps[|ps|-1] == Short(QUOTE))
  }

  lemma FillRest(ps: seq<Piece>, end: int)
    requires Fill(ps, end) && ps != [] && !(ps == [Short(QUOTE)] && end == 1)
    ensures |PieceText(ps[0])| <= end && Fill(ps[1..], end - |PieceText(ps[0])|)
  {
    hide PiecesText, PieceText;
    PiecesHead(ps, []);
    NoPieces([]);
    var rest := ps[1..];
    LastIsLong(rest);
    if rest == [] {
      assert ps == [ps[0]];
      if end == |PiecesText(ps)| - 1 {
        LastOverhangs([]);
      }
    } else {
      assert ps[|ps|-1] == rest[|rest|-1];
    }
  }

  /** Reading all pieces. */
  lemma {:induction false} PiecesRead(ps: seq<Piece>, tail: Text, end: int)
    requires PiecesSound(ps) && end < |PiecesText(ps) + tail| && Fill(ps, end)
    ensures Decode(PiecesText(ps) + tail, end) == Bytes(PiecesBytes(ps))
    decreases |ps|
  {
    NoPieces(tail);
    if ps != [] {
      hide PieceSound, Decode, PieceBytes, PiecesText, PiecesBytes, PieceText, Fill;
      var p, rest := ps[0], ps[1..];
      PiecesHead(ps, tail);
      if ps == [Short(QUOTE)] && end == 1 {
        LastOverhangs(tail);
      } else {
        FillRest(ps, end);
        PieceRead(p, PiecesText(rest) + tail, end);
        PiecesRead(rest, tail, end - |PieceText(p)|);
      }
    }
  }

  lemma NoPieces(tail: Text)
    ensures PiecesText([]) == [] && PiecesBytes([]) == [] && PiecesText([]) + tail == tail
  {}

  lemma {:induction false} LastIsLong(ps: seq<Piece>)
    ensures ps != [] && ps[|ps|-1] == Short(QUOTE) ==> |PiecesText(ps)| >= 2
  {
    if ps != [] && |ps| > 1 {
      assert ps[1..][|ps|-2] == ps[|ps|-1];
      LastIsLong(ps[1..]);
    }
  }

  lemma LastOverhangs(tail: Text)
    ensures PieceText(Short(QUOTE)) + tail == [BACKSLASH, QUOTE] + tail && |PieceText(Short(QUOTE))| == 2
    ensures Decode([BACKSLASH, QUOTE] + tail, 1) == Bytes(PieceBytes(Short(QUOTE)))
  {
    ShortByteIs(QUOTE);
    DecodeSequenceStep([BACKSLASH, QUOTE] + tail, 1);
  }

  lemma LiteralDecoded(l: Literal, post: Text)
    requires LiteralSound(l)
    ensures Decode(l.body + ([QUOTE] + post), |l.body|) == Bytes(PiecesBytes(l.pieces))
  {
    hide ClosingQuote, Decode, PiecesBytes, PiecesSound, Unquoted, PiecesText;
    if PiecesText(l.pieces) == l.body {
      PiecesRead(l.pieces, [QUOTE] + post, |l.body|);
    } else {
      assert l.body + ([QUOTE] + post) == PiecesText(l.pieces) + post;
      PiecesRead(l.pieces, post, |l.body|);
    }
  }

  lemma LiteralRead(l: Literal, post: Text)
    requires LiteralSound(l)
    ensures ParseString(SpellLiteral(l, post)) == Ok(LiteralText(l), post)
  {
    hide ClosingQuote, Decode, PiecesBytes, PiecesSound, Unquoted, PiecesText, Overhangs;
    var s := SpellLiteral(l, post);
    var t := l.body + ([QUOTE] + post);
    assert s[1..] == t;
    ClosingIs(l.body, post);
    LiteralDecoded(l, post);
    assert s[|l.body| + 2..] == post;
  }

  // ----- what is read derives

  lemma GroupOf(s: Text, end: nat) returns (p: Piece)
    requires 0 < end < |s| && s[0] == BACKSLASH && s[1] == 117 && Utf16(s, end).Some?
    ensures PieceSound(p) && PieceText(p) == s[..Utf16(s, end).value.consumed]
    ensures PieceBytes(p) == Utf16(s, end).value.bytes && Utf16(s, end).value.consumed <= end
  {
    hide Utf8, Hex4, Hexadecimal, Nibble;
    var first := Hex4(s[2..]);
    var digits := s[2..6];
    assert digits + s[6..] == s[2..];
    ReadAsIs(digits, first, s[6..]);
    if HighSurrogate(first) {
      var second := Hex4(s[8..]);
      var low := s[8..12];
      assert low + s[12..] == s[8..];
      ReadAsIs(low, second, s[12..]);
      var code := 0x10000 + first % 0x400 * 0x400 + second % 0x400;
      SurrogatesOf(first, second);
      p := Pair(digits, low, code);
      assert s[..12] == [BACKSLASH, 117] + digits + [BACKSLASH, 117] + low;
    } else {
      p := Group(digits, first);
      assert s[..6] == [BACKSLASH, 117] + digits;
    }
  }

  lemma SurrogatesOf(first: nat, second: nat)
    requires HighSurrogate(first) && LowSurrogate(second)
    ensures var code := 0x10000 + first % 0x400 * 0x400 + second % 0x400;
      && code <= 0x10FFFF
      && first == 0xD800 + (code - 0x10000) / 0x400 && second == 0xDC00 + (code - 0x10000) % 0x400
  {
    assert first % 0x400 == first - 0xD800 && second % 0x400 == second - 0xDC00;
  }

  lemma PieceOf(s: Text, end: nat) returns (p: Piece)
    requires 0 < end < |s| && s[end] == QUOTE && Decode(s, end).Bytes?
    ensures PieceSound(p) && |PieceText(p)| <= |s| && PieceText(p) == s[..|PieceText(p)|]
    ensures |PieceText(p)| <= end || (p == Short(QUOTE) && end == 1)
    ensures Decode(s, end) == Prepend(PieceBytes(p), Decode(s[|PieceText(p)|..], end - |PieceText(p)|))
  {
    hide Utf16, Utf8, Decode, ReadAs, Hexadecimal, ShortByte, Unescape;
    if s[0] != BACKSLASH {
      p := Raw(s[0]);
      DecodePlainStep(s, end);
      assert s[..1] == [s[0]];
    } else {
      DecodeRefuses(s, end);
      DecodeSequenceStep(s, end);
      if s[1] == 117 {
        p := GroupOf(s, end);
      } else {
        p := Short(s[1]);
        ShortByteIs(s[1]);
        assert s[..2] == [s[0], s[1]];
      }
    }
  }

  lemma DecodeRefuses(s: Text, end: nat)
    requires 0 < end < |s| && s[0] == BACKSLASH && Decode(s, end).Bytes?
    ensures Sequence(s, end).Some?
  {}

  /** The pieces tile the first `end` bytes of s, up to an overhanging one. */
  ghost predicate Tile(ps: seq<Piece>, s: Text, end: int)
    requires end < |s|
  {
    if end <= 0 then ps == []
    else
      || PiecesText(ps) == s[..end]
      || (ps != [] && ps[|ps|-1] == Short(QUOTE) && PiecesText(ps) == s[..end+1])
  }

  lemma {:induction false} PiecesOf(s: Text, end: int) returns (ps: seq<Piece>)
    requires -1 <= end < |s| && (end >= 0 ==> s[end] == QUOTE) && Decode(s, end).Bytes?
    ensures PiecesSound(ps) && PiecesBytes(ps) == Decode(s, end).bytes && Tile(ps, s, end)
    decreases |s|
  {
    if end <= 0 {
      ps := [];
    } else {
      hide Decode, PieceSound, PieceText, PieceBytes, PiecesText, PiecesBytes, Tile;
      var p := PieceOf(s, end);
      var n := |PieceText(p)|;
      PieceNotEmpty(p);
      var rest := PiecesOf(s[n..], end - n);
      ps := [p] + rest;
      PiecesHead(ps, []);
      assert ps[1..] == rest;
      TileStep(p, rest, s, end);
    }
  }

  lemma PieceNotEmpty(p: Piece)
    ensures PieceText(p) != []
  {}

  lemma TileStep(p: Piece, rest: seq<Piece>, s: Text, end: nat)
    requires 0 < end < |s| && |PieceText(p)| <= |s| && PieceText(p) == s[..|PieceText(p)|]
    requires |PieceText(p)| <= end || (p == Short(QUOTE) && end == 1)
    requires Tile(rest, s[|PieceText(p)|..], end - |PieceText(p)|)
    ensures Tile([p] + rest, s, end)
  {
    hide PieceText, PiecesText;
    var n, ps := |PieceText(p)|, [p] + rest;
    assert ps[1..] == rest;
    PiecesHead(ps, []);
    NoPieces([]);
    if n < end {
      TileMore(p, rest, s, end);
    } else {
      LastOverhangs([]);
      assert rest == [] && PiecesText(ps) == PieceText(p);
      assert ps[|ps|-1] == p;
    }
  }

  lemma TileMore(p: Piece, rest: seq<Piece>, s: Text, end: nat)
    requires |PieceText(p)| < end < |s| && PieceText(p) == s[..|PieceText(p)|]
    requires Tile(rest, s[|PieceText(p)|..], end - |PieceText(p)|)
    ensures Tile([p] + rest, s, end)
  {
    hide PieceText, PiecesText;
    var n, ps := |PieceText(p)|, [p] + rest;
    var t := s[n..];
    assert ps[1..] == rest;
    PiecesHead(ps, []);
    assert s[..end] == s[..n] + t[..end - n];
    assert s[..end + 1] == s[..n] + t[..end + 1 - n];
    assert rest != [] ==> ps[|ps|-1] == rest[|rest|-1];
  }

  lemma {:induction false} UnquotedOf(s: Text)
    requires ClosingQuote(s) < |s|
    ensures Unquoted(s[..ClosingQuote(s)])
    decreases |s|
  {
    var e := ClosingQuote(s);
    if s[0] != QUOTE {
      if s[0] == BACKSLASH {
        UnquotedOf(s[2..]);
        assert s[..e][2..] == s[2..][..e-2];
      } else {
        UnquotedOf(s[1..]);
        assert s[..e][1..] == s[1..][..e-1];
      }
    }
  }

  lemma LiteralOf(s: Text) returns (l: Literal)
    requires ParseString(s).Ok?
    ensures LiteralSound(l) && s == SpellLiteral(l, ParseString(s).rest) && LiteralText(l) == ParseString(s).value
  {
    hide ClosingQuote, Decode, PiecesBytes, PiecesSound, Unquoted, PiecesText;
    var t := s[1..];
    var end := ClosingQuote(t);
    UnquotedOf(t);
    var ps := PiecesOf(t, end);
    l := Literal(t[..end], ps);
    NoPieces([]);
    assert t[..end+1] == t[..end] + [QUOTE];
    assert s == [QUOTE] + t[..end] + ([QUOTE] + s[end + 2..]);
    if end == 0 {
      assert PiecesText(ps) == t[..end];
    }
  }

  // ----- numbers

  /** The bytes given to strtod are the ones that `parse_number` copies. */
  lemma {:induction false} RunIs(run: Text, s: Text, room: nat)
    requires |run| <= room && run <= s && forall i | 0 <= i < |run| :: NumberByte(run[i])
    requires |run| == room || |run| == |s| || !NumberByte(s[|run|])
    ensures NumberText(s, room) == run
    decreases |run|
  {
    if run != [] {
      RunIs(run[1..], s[1..], room - 1);
      assert run == [run[0]] + run[1..];
    }
  }

  lemma {:induction false} RunOf(s: Text, room: nat)
    ensures var run := NumberText(s, room);
      && |run| <= room && run <= s && (forall i | 0 <= i < |run| :: NumberByte(run[i]))
      && (|run| == room || |run| == |s| || !NumberByte(s[|run|]))
    decreases room
  {
    if room > 0 && s != [] && NumberByte(s[0]) {
      RunOf(s[1..], room - 1);
    }
  }

  lemma RunExactly(run: Text, s: Text)
    ensures Run(run, s) <==> run == NumberText(s, 63)
  {
    hide InNumeral, NumberByte;
    forall c: Byte
      ensures InNumeral(c) <==> NumberByte(c)
    {
      InNumeralIs(c);
    }
    RunOf(s, 63);
    if Run(run, s) {
      RunIs(run, s, 63);
    }
  }

  lemma TruncatedIs(x: real, n: int)
    ensures Truncated(x, n) <==> n == ToInt(x)
  {}

  /** A number derives as what `parse_number` makes of it. */
  lemma NumeralIs(text: Text, n: int, post: Text, strtod: Strtod)
    requires text != [] && (text[0] == MINUS || 48 <= text[0] <= 57)
    ensures NumeralSound(text, n, post, strtod) <==> ParseNumber(text + post, strtod) == Ok(Number(n), post)
  {
    hide Run, NumberText, Truncated, ToInt;
    var s := text + post;
    var run := NumberText(s, 63);
    var (taken, value) := strtod(run);
    RunExactly(run, s);
    forall r
      ensures Run(r, s) ==> r == run
    {
      RunExactly(r, s);
    }
    TruncatedIs(value, n);
    if taken != 0 {
      assert s[taken..] == post <==> taken == |text| by {
        assert s[|text|..] == post;
      }
    }
  }

  /** In front of anything that numbers are not made of, what stands behind does not matter. */
  lemma NumeralAlone(text: Text, n: int, post: Text, strtod: Strtod)
    requires Ends(post)
    ensures NumeralSound(text, n, post, strtod) <==> NumeralSound(text, n, [], strtod)
  {
    hide NumberByte, Truncated;
    RunExactly(NumberText(text + post, 63), text + post);
    forall run | strtod(run).0 == |text|
      ensures Run(run, text + post) <==> Run(run, text + [])
    {
      assert text + [] == text;
      if post != [] {
        InNumeralIs(post[0]);
        assert !InNumeral((text + post)[|text|]);
      }
    }
  }
}
