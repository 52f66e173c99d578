/** `parse_hex4` and `utf16_literal_to_utf8` as loops over the input and the output buffer. */
module UnicodeLoops {
  import opened Basics
  import opened Strings
  import opened Unicode

  /** The number that the digits write, most significant first. */
  function Number16(s: Text): nat
    requires AllHex(s)
  {
    if s == [] then 0 else Number16(s[..|s|-1]) * 16 + HexValue(s[|s|-1]).value
  }

  lemma Hex4IsNumber(s: Text)
    requires |s| >= 4
    ensures Hex4(s) == if AllHex(s[..4]) then Number16(s[..4]) else 0
  {
    if AllHex(s[..4]) {
      var t := s[..4];
      assert t[..3][..2] == t[..2] && t[..2][..1] == t[..1] && t[..1][..0] == [];
      assert t[0] == s[0] && t[1] == s[1] && t[2] == s[2] && t[3] == s[3];
      assert Number16(t[..1]) == HexValue(s[0]).value;
      assert Number16(t[..2]) == HexValue(s[0]).value * 16 + HexValue(s[1]).value;
      assert Number16(t[..3]) == Number16(t[..2]) * 16 + HexValue(s[2]).value;
    } else {
      var i :| 0 <= i < 4 && HexValue(s[..4][i]).None?;
    }
  }

  lemma NumberNothing()
    ensures AllHex([]) && Number16([]) == 0
  {}

  lemma NumberStep(s: Text, i: nat)
    requires i < |s| && AllHex(s[..i])
    ensures HexValue(s[i]).Some? ==>
      AllHex(s[..i+1]) && Number16(s[..i+1]) == Number16(s[..i]) * 16 + HexValue(s[i]).value
  {
    assert s[..i+1][..i] == s[..i];
  }

  /** `parse_hex4`. */
  method ParseHex4(input: Text) returns (h: nat)
    requires |input| >= 4
    ensures h == Hex4(input)
  {
    hide Hex4, Number16;
    Hex4IsNumber(input);
    NumberNothing();
    h := 0;
    var i := 0;
    while i < 4
      invariant 0 <= i <= 4 && AllHex(input[..i])
      invariant h == Number16(input[..i]) * if i < 4 then 16 else 1
    {
      var c := input[i];
      NumberStep(input, i);
      if 48 <= c <= 57 {
        h := h + (c - 48);
      } else if 65 <= c <= 70 {
        h := h + (10 + c - 65);
      } else if 97 <= c <= 102 {
        h := h + (10 + c - 97);
      } else {
        assert input[..4][i] == c;
        return 0;
      }
      if i < 3 {
        h := h * 16;
      }
      i := i + 1;
    }
  }

  /** c without its last k groups of six bits. */
  function Shifted(c: nat, k: nat): nat {
    if k == 0 then c else Shifted(c, k - 1) / 64
  }

  lemma Shifts(c: nat)
    ensures Shifted(c, 1) == c / 64 && Shifted(c, 2) == c / 4096 && Shifted(c, 3) == c / 262144
  {
    assert c / 64 / 64 == c / 4096 && c / 4096 / 64 == c / 262144;
  }

  /** The last k bytes of a code point's form. */
  function Continuation(c: nat, k: nat): (r: Text)
    ensures |r| == k
  {
    if k == 0 then [] else [0x80 + Shifted(c, k - 1) % 64] + Continuation(c, k - 1)
  }

  lemma ContinuationStep(c: nat, k: nat)
    ensures Shifted(c, 0) == c && Continuation(c, 0) == []
    ensures Shifted(c, k + 1) == Shifted(c, k) / 64
    ensures Continuation(c, k + 1) == [0x80 + Shifted(c, k) % 64] + Continuation(c, k)
  {}

  function Utf8Length(c: nat): nat {
    if c < 0x80 then 1 else if c < 0x800 then 2 else if c < 0x10000 then 3 else 4
  }

  function FirstByteMark(c: nat): nat {
    if c < 0x80 then 0 else if c < 0x800 then 0xC0 else if c < 0x10000 then 0xE0 else 0xF0
  }

  lemma Utf8Parts(c: nat)
    requires c <= 0x10FFFF
    ensures |Utf8(c)| == Utf8Length(c)
    ensures FirstByteMark(c) + Shifted(c, Utf8Length(c) - 1) < 256
    ensures Utf8(c) == [FirstByteMark(c) + Shifted(c, Utf8Length(c) - 1)] + Continuation(c, Utf8Length(c) - 1)
  {
    Shifts(c);
    assert Continuation(c, 1) == [0x80 + c % 64] + Continuation(c, 0);
    assert Continuation(c, 2) == [0x80 + c / 64 % 64] + Continuation(c, 1);
    assert Continuation(c, 3) == [0x80 + c / 4096 % 64] + Continuation(c, 2);
  }

  /** The encoding loop of `utf16_literal_to_utf8`: continuation bytes from the last to the second, then the lead byte.
   */
  method EncodeUtf8(codepoint: nat, output: array<Byte>, at: nat) returns (utf8Length: nat)
    requires codepoint <= 0x10FFFF && at + |Utf8(codepoint)| <= output.Length
    modifies output
    ensures utf8Length == |Utf8(codepoint)| && output[..at + utf8Length] == old(output[..at]) + Utf8(codepoint)
  {
    hide Utf8, Continuation, Shifted;
    Utf8Parts(codepoint);
    ContinuationStep(codepoint, 0);
    var firstByteMark := 0;
    if codepoint < 0x80 {
      utf8Length := 1;
    } else if codepoint < 0x800 {
      utf8Length, firstByteMark := 2, 0xC0;
    } else if codepoint < 0x10000 {
      utf8Length, firstByteMark := 3, 0xE0;
    } else {
      utf8Length, firstByteMark := 4, 0xF0;
    }
    var rest := ContinuationBytes(codepoint, utf8Length, output, at);
    ghost var behind := output[at + 1..at + utf8Length];
    output[at] := firstByteMark + rest;
    assert output[..at + utf8Length] == old(output[..at]) + [output[at]] + behind;
  }

  /** The loop over the continuation bytes; what it returns belongs into the lead byte. */
  method ContinuationBytes(codepoint: nat, utf8Length: nat, output: array<Byte>, at: nat) returns (rest: nat)
    requires 0 < utf8Length && at + utf8Length <= output.Length
    modifies output
    ensures rest == Shifted(codepoint, utf8Length - 1)
    ensures output[at + 1..at + utf8Length] == Continuation(codepoint, utf8Length - 1)
    ensures output[..at] == old(output[..at])
  {
    hide Continuation, Shifted;
    ContinuationStep(codepoint, 0);
    var position := utf8Length - 1;
    rest := codepoint;
    while position > 0
      invariant 0 <= position < utf8Length && rest == Shifted(codepoint, utf8Length - 1 - position)
      invariant output[at + position + 1..at + utf8Length] == Continuation(codepoint, utf8Length - 1 - position)
      invariant output[..at] == old(output[..at])
    {
      ghost var behind := output[at + position + 1..at + utf8Length];
      ContinuationStep(codepoint, utf8Length - 1 - position);
      output[at + position] := 0x80 + rest % 64;
      assert output[at + position..at + utf8Length] == [output[at + position]] + behind;
      rest := rest / 64;
      position := position - 1;
    }
  }

  /** `utf16_literal_to_utf8`, for a literal of which `end` bytes are inside the string; 0 stands for failure. */
  method Utf16LiteralToUtf8(input: Text, end: nat, output: array<Byte>, at: nat)
    returns (sequenceLength: nat, next: nat)
    requires end <= |input| && at <= output.Length
    requires Utf16(input, end).Some? ==> at + |Utf16(input, end).value.bytes| <= output.Length
    modifies output
    ensures sequenceLength == 0 <==> Utf16(input, end).None?
    ensures sequenceLength != 0 ==> var u := Utf16(input, end).value;
      sequenceLength == u.consumed && next == at + |u.bytes| && next <= output.Length &&
        output[..next] == old(output[..at]) + u.bytes
  {
    next := at;
    if end < 6 {
      return 0, at;
    }
    var firstCode := ParseHex4(input[2..]);
    if 0xDC00 <= firstCode <= 0xDFFF {
      return 0, at;
    }
    var codepoint;
    if 0xD800 <= firstCode <= 0xDBFF {
      if end - 6 < 6 {
        return 0, at;
      }
      if input[6] != 92 || input[7] != 117 {
        return 0, at;
      }
      var secondCode := ParseHex4(input[8..]);
      if secondCode < 0xDC00 || secondCode > 0xDFFF {
        return 0, at;
      }
      sequenceLength := 12;
      codepoint := 0x10000 + (firstCode % 0x400 * 0x400 + secondCode % 0x400);
    } else {
      sequenceLength := 6;
      codepoint := firstCode;
    }
    var n := EncodeUtf8(codepoint, output, at);
    next := at + n;
  }
}
