/** `\uXXXX` escape sequences and the UTF-8 they become. */
module Unicode {
  import opened Basics
  import opened Strings

  function HexValue(c: Byte): Option<nat> {
    if 48 <= c <= 57 then Some(c - 48)
    else if 65 <= c <= 70 then Some(10 + c - 65)
    else if 97 <= c <= 102 then Some(10 + c - 97)
    else None
  }

  /** `parse_hex4`: anything but four hexadecimal digits counts as zero. */
  function Hex4(s: Text): (h: nat)
    requires |s| >= 4
    ensures h < 0x10000
  {
    var a, b, c, d := HexValue(s[0]), HexValue(s[1]), HexValue(s[2]), HexValue(s[3]);
    if a.Some? && b.Some? && c.Some? && d.Some? then ((a.value * 16 + b.value) * 16 + c.value) * 16 + d.value else 0
  }

  predicate HighSurrogate(code: nat) {
    0xD800 <= code <= 0xDBFF
  }

  predicate LowSurrogate(code: nat) {
    0xDC00 <= code <= 0xDFFF
  }

  predicate Scalar(c: nat) {
    c <= 0x10FFFF && !(0xD800 <= c <= 0xDFFF)
  }

  /** The bytes that `utf16_literal_to_utf8` writes for a code point. */
  function Utf8(c: nat): (r: Text)
    requires c <= 0x10FFFF
    ensures 1 <= |r| <= 4
    ensures c < 0x10000 ==> |r| <= 3
  {
    if c < 0x80 then [c]
    else if c < 0x800 then [0xC0 + c / 64, 0x80 + c % 64]
    else if c < 0x10000 then [0xE0 + c / 4096, 0x80 + c / 64 % 64, 0x80 + c % 64]
    else [0xF0 + c / 262144, 0x80 + c / 4096 % 64, 0x80 + c / 64 % 64, 0x80 + c % 64]
  }

  datatype Conversion = Conversion(bytes: Text, consumed: nat)

  /** `utf16_literal_to_utf8` on a text that starts with a backslash and `u`, of which `end` bytes are inside the
   string. */
  function Utf16(s: Text, end: nat): (r: Option<Conversion>)
    requires end <= |s|
    ensures r.Some? ==>
      1 <= |r.value.bytes| <= 4 && (r.value.consumed == 6 || r.value.consumed == 12) && r.value.consumed <= end
    ensures r.Some? && r.value.consumed == 6 ==> |r.value.bytes| <= 3
  {
    if end < 6 then None
    else
      var first := Hex4(s[2..]);
      if LowSurrogate(first) then None
      else if !HighSurrogate(first) then Some(Conversion(Utf8(first), 6))
      else if end < 12 || s[6] != 92 || s[7] != 117 then None
      else
        var second := Hex4(s[8..]);
        if !LowSurrogate(second) then None
        else Some(Conversion(Utf8(0x10000 + first % 0x400 * 0x400 + second % 0x400), 12))
  }

  predicate Trail(b: Byte) {
    0x80 <= b < 0xC0
  }

  /** The number a lead byte starts with, and that number with the six bits of a further byte behind it. */
  function Lead(b: Byte, mark: nat): int {
    b as int - mark
  }

  function Join(high: int, b: Byte): int {
    high * 64 + (b as int - 0x80)
  }

  /** The decoder of section 4 of RFC 3629: it takes only shortest forms and only scalar values. */
  function DecodeUtf8(s: Text): Option<nat> {
    if |s| == 1 && s[0] < 0x80 then Some(s[0])
    else if |s| == 2 && 0xC2 <= s[0] < 0xE0 && Trail(s[1]) then Some(Join(Lead(s[0], 0xC0), s[1]))
    else if |s| == 3 && 0xE0 <= s[0] < 0xF0 && Trail(s[1]) && Trail(s[2])
      && (s[0] == 0xE0 ==> 0xA0 <= s[1]) && (s[0] == 0xED ==> s[1] < 0xA0)
      then Some(Join(Join(Lead(s[0], 0xE0), s[1]), s[2]))
    else if |s| == 4 && 0xF0 <= s[0] < 0xF5 && Trail(s[1]) && Trail(s[2]) && Trail(s[3])
      && (s[0] == 0xF0 ==> 0x90 <= s[1]) && (s[0] == 0xF4 ==> s[1] < 0x90)
      then Some(Join(Join(Join(Lead(s[0], 0xF0), s[1]), s[2]), s[3]))
    else None
  }

  /** Splitting into digits of base 64 loses nothing. */
  lemma Base64Digits(c: nat)
    ensures c == c / 64 * 64 + c % 64
    ensures c / 64 == c / 4096 * 64 + c / 64 % 64
    ensures c / 4096 == c / 262144 * 64 + c / 4096 % 64
  {
    assert c / 64 / 64 == c / 4096;
    assert c / 4096 / 64 == c / 262144;
  }

  /** A scalar's bytes are the ones from which an independent decoder gets it back, so they are its shortest form. */
  lemma Utf8RoundTrip(c: nat)
    requires Scalar(c)
    ensures DecodeUtf8(Utf8(c)) == Some(c)
  {
    Base64Digits(c);
  }

  /** ... and no other byte string decodes to it. */
  lemma Utf8Unique(s: Text, c: nat)
    requires DecodeUtf8(s) == Some(c)
    ensures Scalar(c) && Utf8(c) == s
  {
    if |s| == 2 {
      Joined(Lead(s[0], 0xC0), s[1]);
    } else if |s| == 3 {
      Joined(Lead(s[0], 0xE0), s[1]);
      Joined(Join(Lead(s[0], 0xE0), s[1]), s[2]);
      Base64Digits(c);
    } else if |s| == 4 {
      var high := Join(Lead(s[0], 0xF0), s[1]);
      Joined(Lead(s[0], 0xF0), s[1]);
      Joined(high, s[2]);
      Joined(Join(high, s[2]), s[3]);
      Base64Digits(c);
    }
  }

  lemma Joined(high: int, b: Byte)
    requires high >= 0 && Trail(b)
    ensures Join(high, b) / 64 == high && Join(high, b) % 64 == b as int - 0x80
  {}

  /** The escape sequences of section 7 of RFC 8259 for a scalar: one group, or a surrogate pair (section 2.1 of RFC
   2781). */
  ghost predicate Spells(s: Text, c: nat) {
    && |s| >= 6 && s[0] == 92 && s[1] == 117
    && if c < 0x10000 then |s| == 6 && Hex4(s[2..]) == c && AllHex(s[2..6])
       else
         && |s| == 12 && s[6] == 92 && s[7] == 117
         && AllHex(s[2..6]) && Hex4(s[2..]) == 0xD800 + (c - 0x10000) / 0x400
         && AllHex(s[8..12]) && Hex4(s[8..]) == 0xDC00 + (c - 0x10000) % 0x400
  }

  predicate AllHex(s: Text) {
    forall i | 0 <= i < |s| :: HexValue(s[i]).Some?
  }

  /** Every scalar, written as one or two groups and followed by anything, is converted to its UTF-8 form. */
  lemma ConvertsScalars(s: Text, tail: Text, c: nat)
    requires Scalar(c) && Spells(s, c)
    ensures Utf16(s + tail, |s|) == Some(Conversion(Utf8(c), |s|))
    ensures DecodeUtf8(Utf16(s + tail, |s|).value.bytes) == Some(c)
  {
    hide Utf8, DecodeUtf8, HexValue, Hex4;
    Utf8RoundTrip(c);
    var t := s + tail;
    SameHex(s[2..], t[2..]);
    if c >= 0x10000 {
      SameHex(s[8..], t[8..]);
      PairDigits(c - 0x10000);
    }
  }

  lemma SameHex(s: Text, t: Text)
    requires |s| >= 4 && |t| >= 4 && s[..4] == t[..4]
    ensures Hex4(s) == Hex4(t)
  {
    assert forall i | 0 <= i < 4 :: s[i] == s[..4][i] && t[i] == t[..4][i];
  }

  /** The two halves of a surrogate pair carry ten bits each. */
  lemma PairDigits(h: nat)
    requires h < 0x100000
    ensures h / 0x400 < 0x400 && (0xD800 + h / 0x400) % 0x400 == h / 0x400
    ensures (0xDC00 + h % 0x400) % 0x400 == h % 0x400
    ensures h / 0x400 * 0x400 + h % 0x400 == h
  {}

  /** Exactly when a sequence is refused: it is cut short, it is a lone low surrogate, or it is a high surrogate without
   a low one behind it. What is converted is always a scalar. */
  lemma Refused(s: Text, end: nat)
    requires end <= |s|
    ensures Utf16(s, end).None? <==>
      || end < 6
      || LowSurrogate(Hex4(s[2..]))
      || (HighSurrogate(Hex4(s[2..])) && !(end >= 12 && s[6] == 92 && s[7] == 117 && LowSurrogate(Hex4(s[8..]))))
    ensures Utf16(s, end).Some? ==> exists c :: Scalar(c) && Utf16(s, end).value.bytes == Utf8(c)
  {
    if Utf16(s, end).Some? {
      var first := Hex4(s[2..]);
      if HighSurrogate(first) {
        var c := 0x10000 + first % 0x400 * 0x400 + Hex4(s[8..]) % 0x400;
        assert Scalar(c);
      } else {
        assert Scalar(first);
      }
    }
  }
}
