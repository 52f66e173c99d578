/**
 The buffer of `parse_string`. Its size comes from a first pass over the literal, and
 the second pass does not always see the same escape sequences: a `\u` group takes four
 bytes whatever they are, so that it can end between a backslash and the byte it escapes.
 */
module StringSizing {
  import opened Basics
  import opened Strings
  import opened Printing
  import opened Unicode
  import opened Parsing

  /** The bytes that the decoding pass writes, up to a failure if there is one. */
  function Written(s: Text, end: int): nat
    requires end < |s|
    decreases |s|
  {
    if end <= 0 then 0
    else if s[0] != BACKSLASH then 1 + Written(s[1..], end - 1)
    else
      var u := Sequence(s, end);
      if u.None? then 0 else |u.value.bytes| + Written(s[u.value.consumed..], end - u.value.consumed)
  }

  lemma {:induction false} DecodedLength(s: Text, end: int)
    requires end < |s|
    ensures Decode(s, end).Bytes? ==> |Decode(s, end).bytes| == Written(s, end)
    decreases |s|
  {
    if end > 0 {
      if s[0] != BACKSLASH {
        DecodedLength(s[1..], end - 1);
      } else {
        var u := Sequence(s, end);
        if u.Some? {
          DecodedLength(s[u.value.consumed..], end - u.value.consumed);
        }
      }
    }
  }

  /** The sizing pass is at the start of s. */
  ghost predicate Aligned(s: Text, end: int) {
    0 <= end < |s| && end == ClosingQuote(s)
  }

  /** The sizing pass has counted the first byte of s together with a backslash before it. */
  ghost predicate Straddled(s: Text, end: int) {
    1 <= end < |s| && end == 1 + ClosingQuote(s[1..])
  }

  lemma AlignedStep(s: Text, end: int)
    requires Aligned(s, end) && end > 0
    ensures s[0] != QUOTE
    ensures s[0] != BACKSLASH ==> Aligned(s[1..], end - 1) && Tokens(s) == 1 + Tokens(s[1..])
    ensures s[0] == BACKSLASH ==> end >= 2 && Straddled(s[1..], end - 1) && Tokens(s) == 1 + Tokens(s[2..])
    ensures s[0] == BACKSLASH ==> Aligned(s[2..], end - 2)
  {
    if s[0] == BACKSLASH {
      assert s[1..][1..] == s[2..];
    }
  }

  lemma StraddledStep(s: Text, end: int)
    requires Straddled(s, end)
    ensures Aligned(s[1..], end - 1)
  {}

  /** Four bytes on, the passes may have parted, but then the sizing pass has counted enough. */
  lemma FourOn(t: Text, end: int)
    requires Aligned(t, end) && end >= 4
    ensures AllHex(t[..4]) ==> Aligned(t[4..], end - 4) && Tokens(t) == 4 + Tokens(t[4..])
    ensures
      || (Aligned(t[4..], end - 4) && Tokens(t) >= 2 + Tokens(t[4..]))
      || (Straddled(t[4..], end - 4) && Tokens(t) >= 3 + Tokens(t[5..]))
  {
    TwoOn(t, end);
    assert t[2..][2..] == t[4..] && t[3..][1..] == t[4..];
    if Aligned(t[2..], end - 2) {
      TwoOn(t[2..], end - 2);
      assert t[2..][3..] == t[5..];
      assert AllHex(t[..4]) ==>
        t[..4][0] == t[0] && t[..4][1] == t[1] && t[..4][2] == t[2..][0] && t[..4][3] == t[2..][1];
    } else {
      StraddledStep(t[2..], end - 2);
      assert t[2..][1..] == t[3..];
      AlignedStep(t[3..], end - 3);
      assert t[3..][2..] == t[5..];
    }
  }

  /** Two bytes on: both counted singly, or one escape sequence, or one byte and half an escape sequence. */
  lemma TwoOn(t: Text, end: int)
    requires Aligned(t, end) && end >= 2
    ensures
      || (Aligned(t[2..], end - 2) && Tokens(t) >= 1 + Tokens(t[2..]))
      || (t[1] == BACKSLASH && Straddled(t[2..], end - 2) && Tokens(t) >= 2 + Tokens(t[3..]))
    ensures t[0] != BACKSLASH && t[1] != BACKSLASH ==> Aligned(t[2..], end - 2) && Tokens(t) == 2 + Tokens(t[2..])
  {
    AlignedStep(t, end);
    if t[0] != BACKSLASH {
      AlignedStep(t[1..], end - 1);
      assert t[1..][1..] == t[2..] && t[1..][2..] == t[3..];
    }
  }

  /** n more bytes are covered by what the sizing pass is still going to count, and by half a sequence counted already.
   */
  ghost predicate Covered(n: nat, s: Text, end: int) {
    && (Aligned(s, end) ==> n <= Tokens(s))
    && (Straddled(s, end) ==> n <= Tokens(s[1..]) + 1)
  }

  ghost predicate Placed(s: Text, end: int) {
    Aligned(s, end) || Straddled(s, end)
  }

  lemma PlainCovered(s: Text, end: int, n: nat)
    requires 0 < end < |s| && Placed(s, end) && s[0] != BACKSLASH
    ensures Placed(s[1..], end - 1)
    ensures Covered(n, s[1..], end - 1) ==> Covered(n + 1, s, end)
  {
    if Aligned(s, end) {
      AlignedStep(s, end);
    }
  }

  lemma PairCovered(s: Text, end: int, n: nat)
    requires 0 < end < |s| && Placed(s, end) && s[0] == BACKSLASH
    ensures end >= 2 ==> Placed(s[2..], end - 2)
    ensures end >= 2 && Covered(n, s[2..], end - 2) ==> Covered(n + 1, s, end)
    ensures end == 1 ==> Covered(1, s, end)
  {
    if Aligned(s, end) {
      AlignedStep(s, end);
    }
    if Straddled(s, end) && end >= 2 {
      AlignedStep(s[1..], end - 1);
      assert s[1..][1..] == s[2..] && s[1..][2..] == s[3..] && s[2..][1..] == s[3..];
    }
  }

  lemma GroupStart(s: Text, end: int)
    requires 6 <= end < |s| && Placed(s, end) && s[0] == BACKSLASH && s[1] == 117
    ensures Aligned(s[2..], end - 2)
    ensures forall n: nat :: n <= Tokens(s[2..]) + 1 ==> Covered(n, s, end)
  {
    if Aligned(s, end) {
      AlignedStep(s, end);
    }
    if Straddled(s, end) {
      AlignedStep(s[1..], end - 1);
      assert s[1..][1..] == s[2..];
    }
  }

  lemma HexOrZero(s: Text)
    requires |s| >= 4
    ensures AllHex(s[..4]) || Hex4(s) == 0
  {
    if HexValue(s[0]).Some? && HexValue(s[1]).Some? && HexValue(s[2]).Some? && HexValue(s[3]).Some? {
      forall i | 0 <= i < 4
        ensures HexValue(s[..4][i]).Some?
      {
        assert s[..4][i] == s[i];
      }
    }
  }

  lemma GroupCovered(s: Text, end: int, n: nat)
    requires 0 < end < |s| && Placed(s, end) && s[0] == BACKSLASH && s[1] == 117 && Utf16(s, end).Some?
    ensures var u := Utf16(s, end).value;
      Placed(s[u.consumed..], end - u.consumed) &&
        (Covered(n, s[u.consumed..], end - u.consumed) ==> Covered(n + |u.bytes|, s, end))
  {
    hide Tokens, ClosingQuote, Aligned, Straddled, AllHex;
    var u := Utf16(s, end).value;
    var t := s[2..];
    GroupStart(s, end);
    FourOn(t, end - 2);
    HexOrZero(t);
    assert t[4..] == s[6..] && t[5..] == s[6..][1..];
    if u.consumed == 12 {
      AlignedStep(s[6..], end - 6);
      assert s[6..][2..] == s[8..] && s[8..][4..] == s[12..];
      FourOn(s[8..], end - 8);
      HexOrZero(s[8..]);
    }
  }

  /** What is written is covered, wherever the two passes are. */
  lemma {:induction false} WrittenCovered(s: Text, end: int)
    requires end < |s| && Placed(s, end)
    ensures Covered(Written(s, end), s, end)
    decreases |s|
  {
    if end > 0 {
      hide Covered, Placed, Written, Sequence;
      WrittenStep(s, end);
      if s[0] != BACKSLASH {
        PlainCovered(s, end, Written(s[1..], end - 1));
        WrittenCovered(s[1..], end - 1);
      } else if Sequence(s, end).None? {
        NothingCovered(s, end);
      } else {
        var u := Sequence(s, end).value;
        SequenceCovered(s, end, u, Written(s[u.consumed..], end - u.consumed));
        if end >= u.consumed {
          WrittenCovered(s[u.consumed..], end - u.consumed);
        }
      }
    }
  }

  lemma WrittenStep(s: Text, end: nat)
    requires 0 < end < |s|
    ensures s[0] != BACKSLASH ==> Written(s, end) == 1 + Written(s[1..], end - 1)
    ensures s[0] == BACKSLASH && Sequence(s, end).None? ==> Written(s, end) == 0
    ensures s[0] == BACKSLASH && Sequence(s, end).Some? ==>
      var u := Sequence(s, end).value;
      Written(s, end) == |u.bytes| + Written(s[u.consumed..], end - u.consumed)
  {
    hide Sequence;
  }

  lemma NothingCovered(s: Text, end: int)
    ensures Covered(0, s, end)
  {}

  lemma SequenceCovered(s: Text, end: nat, u: Conversion, more: nat)
    requires 0 < end < |s| && Placed(s, end) && s[0] == BACKSLASH && Sequence(s, end) == Some(u)
    requires more == Written(s[u.consumed..], end - u.consumed)
    ensures end >= u.consumed ==> Placed(s[u.consumed..], end - u.consumed)
    ensures end >= u.consumed && Covered(more, s[u.consumed..], end - u.consumed) ==> Covered(|u.bytes| + more, s, end)
    ensures end < u.consumed ==> Covered(|u.bytes| + more, s, end)
  {
    hide Covered, Placed, Utf16;
    if s[1] == 117 {
      GroupCovered(s, end, more);
    } else {
      PairCovered(s, end, more);
    }
  }

  /** The string buffer is always large enough: for every literal, also for one whose `\u` groups hold no hexadecimal
   digits, the decoding pass writes at most one byte for each sequence that the sizing pass has counted. */
  lemma BufferSuffices(literal: Text)
    requires ClosingQuote(literal) < |literal|
    ensures var end := ClosingQuote(literal);
      && Written(literal, end) <= Tokens(literal)
      && (Decode(literal, end).Bytes? ==> |Decode(literal, end).bytes| == Written(literal, end))
  {
    WrittenCovered(literal, ClosingQuote(literal));
    DecodedLength(literal, ClosingQuote(literal));
  }
}
