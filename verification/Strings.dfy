/**
 Byte strings as the C library sees them. A `Text` holds the bytes before the
 terminating NUL, so a text that a C string can hold contains no zero byte.
 */
module Strings {

  type Byte = b: int | 0 <= b < 256
  type Text = seq<Byte>

  predicate NulFree(s: Text) {
    forall i | 0 <= i < |s| :: s[i] != 0
  }

  /** The bytes of a text as it is written here. */
  function Ascii(s: string): (r: Text)
    requires forall i | 0 <= i < |s| :: s[i] as int < 128
    ensures |r| == |s| && forall i | 0 <= i < |s| :: r[i] == s[i] as int
  {
    seq(|s|, i requires 0 <= i < |s| => s[i] as int)
  }

  /** `tolower` in the C locale. */
  function ToLower(c: Byte): Byte {
    if 65 <= c <= 90 then c + 32 else c
  }

  function Fold(s: Text): (r: Text)
    ensures |r| == |s|
    ensures forall i | 0 <= i < |s| :: r[i] == ToLower(s[i])
  {
    seq(|s|, i requires 0 <= i < |s| => ToLower(s[i]))
  }

  /** True of a text that `tolower` leaves alone. */
  predicate NoUpper(s: Text) {
    forall i | 0 <= i < |s| :: !(65 <= s[i] <= 90)
  }

  /** The sign of `strcmp`. */
  function Strcmp(a: Text, b: Text): int {
    if a == [] && b == [] then 0
    else if a == [] then -1
    else if b == [] then 1
    else if a[0] < b[0] then -1
    else if a[0] > b[0] then 1
    else Strcmp(a[1..], b[1..])
  }

  /** The sign of `compare_strings`. */
  function CompareStrings(a: Text, b: Text, caseSensitive: bool): int {
    if caseSensitive then Strcmp(a, b) else Strcmp(Fold(a), Fold(b))
  }

  lemma {:induction false} StrcmpZero(a: Text, b: Text)
    ensures Strcmp(a, b) == 0 <==> a == b
  {
    if a != [] && b != [] && a[0] == b[0] {
      StrcmpZero(a[1..], b[1..]);
      assert a == [a[0]] + a[1..] && b == [b[0]] + b[1..];
    }
  }

  lemma {:induction false} StrcmpAntisymmetric(a: Text, b: Text)
    ensures Strcmp(a, b) == -Strcmp(b, a)
  {
    if a != [] && b != [] && a[0] == b[0] {
      StrcmpAntisymmetric(a[1..], b[1..]);
    }
  }

  lemma {:induction false} StrcmpTransitive(a: Text, b: Text, c: Text)
    requires Strcmp(a, b) <= 0 && Strcmp(b, c) <= 0
    ensures Strcmp(a, c) <= 0
    ensures Strcmp(a, b) < 0 || Strcmp(b, c) < 0 ==> Strcmp(a, c) < 0
  {
    if a != [] && b != [] && c != [] && a[0] == b[0] == c[0] {
      StrcmpTransitive(a[1..], b[1..], c[1..]);
    }
  }

  /** Where the two texts share their first k bytes, only the rest decides. */
  lemma {:induction false} StrcmpSkip(a: Text, b: Text, k: nat)
    requires k <= |a| && k <= |b| && a[..k] == b[..k]
    ensures Strcmp(a, b) == Strcmp(a[k..], b[k..])
  {
    if k == 0 {
      assert a[0..] == a && b[0..] == b;
    } else {
      assert a[0] == a[..k][0] == b[..k][0] == b[0];
      assert a[1..][..k-1] == a[..k][1..] == b[..k][1..] == b[1..][..k-1];
      StrcmpSkip(a[1..], b[1..], k - 1);
      assert a[1..][k-1..] == a[k..] && b[1..][k-1..] == b[k..];
    }
  }

  /** On texts without capitals the two modes order alike. */
  lemma FoldIdentity(s: Text)
    requires NoUpper(s)
    ensures Fold(s) == s
  {}

  /** The byte at a C string's index, with the terminator after the text. */
  function At(s: Text, i: nat): Byte
    requires i <= |s|
  {
    if i == |s| then 0 else s[i]
  }

  /** The C string at the start of a buffer: the bytes before the first NUL. */
  function CString(s: Text): Text {
    if s == [] || s[0] == 0 then [] else [s[0]] + CString(s[1..])
  }

  lemma {:induction false} CStringEnds(s: Text, n: nat)
    requires n < |s| && s[n] == 0 && NulFree(s[..n])
    ensures CString(s) == s[..n]
  {
    if n > 0 {
      assert s[0] == s[..n][0];
      assert s[1..][..n-1] == s[..n][1..];
      CStringEnds(s[1..], n - 1);
      assert s[..n] == [s[0]] + s[1..][..n-1];
    }
  }

  /** The pointer-advancing loop of `compare_strings` in its case-insensitive mode. */
  method CompareFolded(a: Text, b: Text) returns (diff: int)
    requires NulFree(a) && NulFree(b)
    ensures diff < 0 <==> CompareStrings(a, b, false) < 0
    ensures diff > 0 <==> CompareStrings(a, b, false) > 0
  {
    var i := 0;
    while ToLower(At(a, i)) == ToLower(At(b, i))
      invariant i <= |a| && i <= |b|
      invariant Fold(a)[..i] == Fold(b)[..i]
      decreases |a| - i
    {
      if At(a, i) == 0 {
        assert Fold(a) == Fold(a)[..i] == Fold(b)[..i] == Fold(b);
        StrcmpZero(Fold(a), Fold(b));
        return 0;
      }
      assert Fold(a)[i] == Fold(b)[i];
      i := i + 1;
    }
    StrcmpSkip(Fold(a), Fold(b), i);
    diff := ToLower(At(a, i)) - ToLower(At(b, i));
  }

  /** `%d` and `%lu`. */
  function Digits(n: nat): (r: Text)
    ensures |r| > 0
    ensures forall i | 0 <= i < |r| :: 48 <= r[i] <= 57
  {
    if n < 10 then [48 + n] else Digits(n / 10) + [48 + n % 10]
  }

  lemma {:induction false} DigitsHead(n: nat)
    ensures Digits(n)[0] == 48 <==> n == 0
    ensures n < 10 <==> |Digits(n)| == 1
  {
    if n >= 10 {
      DigitsHead(n / 10);
    }
  }
}
