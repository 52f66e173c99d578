/**
 What becomes of a name that is written as the last token of a pointer and read back by
 `decode_pointer_inplace`: never the same name in another case, and never, on the way from
 one name to the next, the name one started from.
 */
module Readback {
  import opened Strings
  import opened Pointer
  import opened PointerDecoding

  /** The name under which a patch for k acts. */
  function ReadBack(k: Text): Text {
    DecodeInPlace(Encode(k))
  }

  lemma {:induction false} EncodeConcat(a: Text, b: Text)
    ensures Encode(a + b) == Encode(a) + Encode(b)
  {
    if a == [] {
      assert a + b == b;
    } else {
      assert (a + b)[1..] == a[1..] + b;
      EncodeConcat(a[1..], b);
      assert EncodeByte(a[0]) + (Encode(a[1..]) + Encode(b)) == EncodeByte(a[0]) + Encode(a[1..]) + Encode(b);
    }
  }

  lemma FoldConcat(a: Text, b: Text)
    ensures Fold(a + b) == Fold(a) + Fold(b)
  {}

  /** Letters are neither escaped nor made by escaping. */
  lemma {:induction false} EncodeFold(s: Text)
    ensures Encode(Fold(s)) == Fold(Encode(s))
  {
    if s != [] {
      EncodeFold(s[1..]);
      assert Fold(s)[1..] == Fold(s[1..]);
      FoldConcat(EncodeByte(s[0]), Encode(s[1..]));
      assert EncodeByte(ToLower(s[0])) == Fold(EncodeByte(s[0]));
    } else {
      assert Fold(s) == [];
    }
  }

  /** Reading back and folding can be done in either order. */
  lemma ReadBackFold(k: Text)
    ensures ReadBack(Fold(k)) == Fold(ReadBack(k))
  {
    DecodeEncoded(k);
    DecodeEncoded(Fold(k));
    EncodeFold(k);
    EncodeIsLonger(k);
    var a, b := ReadBack(Fold(k)), Fold(ReadBack(k));
    forall i | 0 <= i < |k|
      ensures a[i] == b[i]
    {
      assert a[i] == Landed(Fold(k), i) && ReadBack(k)[i] == Landed(k, i);
    }
  }

  /** Both forms of a name survive, or neither. */
  lemma SurvivesFold(k: Text)
    ensures Survives(Fold(k)) <==> Survives(k)
  {
    EncodeFold(k);
    EncodeIsLonger(k);
    EncodeIsLonger(Fold(k));
    var f := Fold(k);
    assert SLASH in f <==> SLASH in k by {
      if SLASH in k {
        var i :| 0 <= i < |k| && k[i] == SLASH;
        assert f[i] == SLASH;
      }
      if SLASH in f {
        var i :| 0 <= i < |f| && f[i] == SLASH;
        assert k[i] == SLASH;
      }
    }
    if Survives(f) && SLASH !in k {
      SurvivesExactly(k);
    }
  }

  /** A name that survives with its capitals folded survives as it is: from the first `~` on, no byte of it is a letter.
   */
  lemma SurvivesExactly(k: Text)
    requires SLASH !in k && Survives(Fold(k))
    ensures Survives(k)
  {
    EncodeIsLonger(k);
    EncodeIsLonger(Fold(k));
    EncodeFold(k);
    var at := FirstTilde(k);
    forall i | 0 <= i < |k| && k[i] != TILDE
      ensures k[i] == Encode(k)[i]
    {
      if i < at {
        PlainPrefix(k, at, i);
      } else {
        NoLetters(k, at, i);
        assert Fold(k)[i] == Encode(Fold(k))[i] == ToLower(Encode(k)[i]);
      }
    }
  }

  ghost function FirstTilde(k: Text): (i: nat)
    ensures i <= |k| && TILDE !in k[..i] && (i < |k| ==> k[i] == TILDE)
  {
    if k == [] || k[0] == TILDE then 0
    else
      var i := FirstTilde(k[1..]);
      assert k[..i+1] == [k[0]] + k[1..][..i];
      i + 1
  }

  lemma PlainPrefix(k: Text, at: nat, i: nat)
    requires i < at <= |k| && SLASH !in k && TILDE !in k[..at]
    ensures i < |Encode(k)| && Encode(k)[i] == k[i]
  {
    EncodeConcat(k[..at], k[at..]);
    EncodePlain(k[..at]);
    assert k == k[..at] + k[at..];
    assert Encode(k)[i] == k[..at][i];
  }

  /** From the first `~` on, the bytes of a surviving name and of its escaped form are only `~` and `0`. */
  lemma {:induction false} NoLetters(k: Text, at: nat, i: nat)
    requires SLASH !in k && Survives(Fold(k)) && at <= i < |k| && at < |k| && k[at] == TILDE && TILDE !in k[..at]
    ensures k[i] == TILDE || k[i] == ZERO
    ensures i < |Encode(k)| && (Encode(k)[i] == TILDE || Encode(k)[i] == ZERO)
    decreases i
  {
    EncodeIsLonger(k);
    EncodeIsLonger(Fold(k));
    EncodeFold(k);
    var done := k[at..i];
    forall x | 0 <= x < |done|
      ensures done[x] == TILDE || done[x] == ZERO
    {
      NoLetters(k, at, at + x);
    }
    TildesAndZeros(done);
    EscapedAfter(k, at, i);
    assert Fold(k)[i] == TILDE || Fold(k)[i] == Encode(Fold(k))[i];
  }

  lemma EscapedAfter(k: Text, at: nat, i: nat)
    requires SLASH !in k && at <= i < |k| && k[at] == TILDE && TILDE !in k[..at]
    requires forall x | 0 <= x < |Encode(k[at..i])| :: Encode(k[at..i])[x] == TILDE || Encode(k[at..i])[x] == ZERO
    ensures i < |Encode(k)| && (Encode(k)[i] == TILDE || Encode(k)[i] == ZERO)
  {
    var done := k[at..i];
    EncodePlain(k[..at]);
    assert k == (k[..at] + done) + k[i..];
    EncodeConcat(k[..at] + done, k[i..]);
    EncodeConcat(k[..at], done);
    if i == at {
      assert Encode(k)[i] == Encode(k[i..])[0];
    } else {
      LongerByTilde(done);
      assert Encode(k)[i] == Encode(done)[i - at];
    }
  }

  lemma {:induction false} TildesAndZeros(s: Text)
    requires forall i | 0 <= i < |s| :: s[i] == TILDE || s[i] == ZERO
    ensures forall i | 0 <= i < |Encode(s)| :: Encode(s)[i] == TILDE || Encode(s)[i] == ZERO
  {
    if s != [] {
      TildesAndZeros(s[1..]);
    }
  }

  lemma LongerByTilde(s: Text)
    requires s != [] && s[0] == TILDE
    ensures |Encode(s)| > |s|
  {
    EncodeIsLonger(s[1..]);
  }

  /** A name that does not survive is not read back as itself in another case either. */
  lemma LostIsOther(k: Text)
    ensures Fold(ReadBack(k)) == Fold(k) <==> Survives(k)
  {
    ReadBackFold(k);
    DecodeUndoesEncode(Fold(k));
    SurvivesFold(k);
  }

  // ----- names that are read back one after the other

  ghost function FirstDifference(a: Text, b: Text): (i: nat)
    requires |a| == |b|
    ensures i <= |a| && (i == |a| <==> a == b)
    ensures a[..i] == b[..i] && (i < |a| ==> a[i] != b[i])
  {
    if a == [] || a[0] != b[0] then 0
    else
      var i := FirstDifference(a[1..], b[1..]);
      assert a == [a[0]] + a[1..] && b == [b[0]] + b[1..];
      assert a[..i+1] == [a[0]] + a[1..][..i] && b[..i+1] == [b[0]] + b[1..][..i];
      i + 1
  }

  lemma ReadBackLength(k: Text)
    ensures |ReadBack(k)| == |k|
  {
    DecodeEncoded(k);
  }

  /** How many bytes of the folded name are read back right. */
  ghost function RightBytes(k: Text): (i: nat)
    ensures i <= |k| && (i == |k| <==> Survives(k))
  {
    var f := Fold(k);
    ReadBackLength(f);
    DecodeUndoesEncode(f);
    SurvivesFold(k);
    FirstDifference(f, ReadBack(f))
  }

  /** The first wrong byte of a name comes back right when what was read is itself read back. */
  lemma WrongByteSettles(k: Text, i: nat)
    requires i == FirstDifference(k, (ReadBackLength(k); ReadBack(k))) < |k|
    ensures |ReadBack(ReadBack(k))| == |k| && ReadBack(ReadBack(k))[..i+1] == ReadBack(k)[..i+1]
  {
    var d := ReadBack(k);
    DecodeEncoded(k);
    DecodeEncoded(d);
    EncodeIsLonger(k);
    EncodeIsLonger(d);
    forall j | 0 <= j <= i
      ensures Landed(d, j) == d[j]
    {
      LandsRight(k, d, i, j);
    }
    assert forall j | 0 <= j <= i :: ReadBack(d)[j] == Landed(d, j);
  }

  lemma LandsRight(k: Text, d: Text, i: nat, j: nat)
    requires Lands(k, d) && j <= i < |k| && k[..i] == d[..i] && k[i] != d[i]
    ensures Landed(d, j) == d[j]
  {
    EncodeIsLonger(k);
    EncodeIsLonger(d);
    assert d[j] == Landed(k, j);
    if j > 0 {
      PrefixAt(k, d, i, j - 1);
    }
    if j < i {
      PrefixAt(k, d, i, j);
      assert k[..j+1] == k[..i][..j+1] == d[..i][..j+1] == d[..j+1];
      EncodeIsLonger(k[..j+1]);
      SharedPrefix(k, d, j + 1, j);
    } else if !(j > 0 && k[j-1] == SLASH) && d[j] != TILDE {
      Escaped(k, j);
      SharedPrefix(k, d, j, j);
    }
  }

  /** The escaped form is settled by the bytes escaped so far. */
  lemma SharedPrefix(k: Text, d: Text, n: nat, j: nat)
    requires n <= |k| && n <= |d| && k[..n] == d[..n] && j < |Encode(k[..n])|
    ensures j < |Encode(k)| && j < |Encode(d)| && Encode(k)[j] == Encode(d)[j]
  {
    EncodeConcat(k[..n], k[n..]);
    EncodeConcat(d[..n], d[n..]);
    assert k == k[..n] + k[n..] && d == d[..n] + d[n..];
  }

  /** A byte that lands wrong without being a `~` has something escaped before it. */
  lemma Escaped(k: Text, j: nat)
    requires j < |k| <= |Encode(k)| && Landed(k, j) != k[j] && !(j > 0 && k[j-1] == SLASH) && Landed(k, j) != TILDE
    ensures j < |Encode(k[..j])|
  {
    EncodeIsLonger(k[..j]);
    if SLASH !in k[..j] && TILDE !in k[..j] {
      NothingEscaped(k, j);
    } else {
      LongerByEscape(k[..j]);
    }
  }

  lemma NothingEscaped(k: Text, j: nat)
    requires j < |k| <= |Encode(k)| && SLASH !in k[..j] && TILDE !in k[..j]
    ensures Encode(k)[j] == EncodeByte(k[j])[0]
  {
    EncodePlain(k[..j]);
    EncodeConcat(k[..j], k[j..]);
    assert k == k[..j] + k[j..];
    assert Encode(k)[j] == Encode(k[j..])[0];
  }

  lemma {:induction false} LongerByEscape(s: Text)
    requires SLASH in s || TILDE in s
    ensures |Encode(s)| > |s|
  {
    if s[0] == SLASH || s[0] == TILDE {
      EncodeIsLonger(s[1..]);
    } else {
      LongerByEscape(s[1..]);
    }
  }

  /** Each reading gets further: so no name comes back to itself through others. */
  lemma ReadBackAdvances(k: Text)
    requires !Survives(k)
    ensures RightBytes(ReadBack(k)) > RightBytes(k)
  {
    var f := Fold(k);
    ReadBackFold(k);
    ReadBackLength(f);
    ReadBackLength(ReadBack(f));
    WrongByteSettles(f, RightBytes(k));
    var d := ReadBack(f);
    var i, n := RightBytes(k), RightBytes(ReadBack(k));
    assert n == FirstDifference(d, ReadBack(d));
    if n <= i {
      PrefixAt(d, ReadBack(d), i + 1, n);
    }
  }

  lemma PrefixAt(a: Text, b: Text, n: nat, i: nat)
    requires i < n <= |a| && n <= |b| && a[..n] == b[..n]
    ensures a[i] == b[i]
  {
    assert a[i] == a[..n][i] && b[i] == b[..n][i];
  }

  lemma RightBytesFold(k: Text, l: Text)
    requires Fold(k) == Fold(l)
    ensures RightBytes(k) == RightBytes(l)
  {}
}
