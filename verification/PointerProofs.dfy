/** Pointers that the library writes lead it back to the node they were written for. */
module PointerProofs {
  import opened Basics
  import opened Strings
  import opened Json
  import opened Pointer

  ghost predicate SameName(a: Text, b: Text, caseSensitive: bool) {
    if caseSensitive then a == b else Fold(a) == Fold(b)
  }

  lemma SameNameCompares(a: Text, b: Text, caseSensitive: bool)
    ensures SameName(a, b, caseSensitive) <==> CompareStrings(a, b, caseSensitive) == 0
  {
    StrcmpZero(a, b);
    StrcmpZero(Fold(a), Fold(b));
  }

  lemma FoldCons(s: Text)
    requires s != []
    ensures Fold(s) == [ToLower(s[0])] + Fold(s[1..])
  {}

  lemma SameNameCons(a: Text, b: Text, caseSensitive: bool)
    requires a != [] && b != []
    ensures SameName(a, b, caseSensitive) <==>
      (if caseSensitive then a[0] == b[0] else ToLower(a[0]) == ToLower(b[0])) &&
        SameName(a[1..], b[1..], caseSensitive)
  {
    if caseSensitive {
      assert a == [a[0]] + a[1..] && b == [b[0]] + b[1..];
    } else {
      FoldCons(a);
      FoldCons(b);
      assert Fold(a)[1..] == Fold(a[1..]) && Fold(b)[1..] == Fold(b[1..]);
      assert Fold(a)[0] == ToLower(a[0]) && Fold(b)[0] == ToLower(b[0]);
    }
  }

  /** The escaped form of a key matches exactly the names that the key matches, for every key. */
  lemma {:induction false} CompareEncoded(name: Text, key: Text, rest: Text, caseSensitive: bool)
    requires AtEnd(rest)
    ensures ComparePointers(name, Encode(key) + rest, caseSensitive) <==> SameName(name, key, caseSensitive)
    decreases |key|
  {
    var p := Encode(key) + rest;
    if key == [] {
      assert p == rest;
      assert Fold(name) == [] <==> name == [];
    } else {
      var tail := Encode(key[1..]) + rest;
      assert p == EncodeByte(key[0]) + tail;
      assert !AtEnd(p);
      if name == [] {
        assert |Fold(key)| == |key|;
      } else {
        CompareEncoded(name[1..], key[1..], rest, caseSensitive);
        SameNameCons(name, key, caseSensitive);
        if key[0] == SLASH || key[0] == TILDE {
          assert p[2..] == tail;
          assert ToLower(name[0]) == ToLower(key[0]) <==> name[0] == key[0];
        } else {
          assert p[1..] == tail;
        }
      }
    }
  }

  lemma {:induction false} SkipUntil(p: Text, rest: Text)
    requires AtEnd(rest) && forall i | 0 <= i < |p| :: p[i] != SLASH
    ensures SkipToken(p + rest) == rest
  {
    if p == [] {
      assert p + rest == rest;
    } else {
      assert (p + rest)[1..] == p[1..] + rest;
      SkipUntil(p[1..], rest);
    }
  }

  lemma {:induction false} EncodeHasNoSlash(s: Text)
    ensures forall i | 0 <= i < |Encode(s)| :: Encode(s)[i] != SLASH
  {
    if s != [] {
      EncodeHasNoSlash(s[1..]);
    }
  }

  /** The number a digit string denotes. */
  ghost function Numeral(ds: Text): int {
    if ds == [] then 0 else 10 * Numeral(ds[..|ds|-1]) + ds[|ds|-1] - ZERO
  }

  lemma {:induction false} NumeralOfDigits(n: nat)
    ensures Numeral(Digits(n)) == n
  {
    var ds := Digits(n);
    if n < 10 {
      assert ds[..0] == [];
    } else {
      NumeralOfDigits(n / 10);
      assert ds[..|ds|-1] == Digits(n / 10);
    }
  }

  lemma StepModulo(x: nat, d: nat)
    ensures (10 * (x % SIZE_RANGE) + d) % SIZE_RANGE == (10 * x + d) % SIZE_RANGE
  {
    var q, r := x / SIZE_RANGE, x % SIZE_RANGE;
    Turns(10 * r + d, 10 * q);
    assert 10 * x + d == 10 * r + d + 10 * q * SIZE_RANGE;
  }

  lemma {:induction false} Turns(y: nat, k: nat)
    ensures (y + k * SIZE_RANGE) % SIZE_RANGE == y % SIZE_RANGE
  {
    if k > 0 {
      Turns(y, k - 1);
      assert y + k * SIZE_RANGE == y + (k - 1) * SIZE_RANGE + SIZE_RANGE;
    }
  }

  lemma {:induction false} IndexLoopReads(p: Text, k: nat, m: nat, x: nat)
    requires k <= m <= |p| && forall i | 0 <= i < m :: ZERO <= p[i] <= NINE
    requires Numeral(p[..k]) == x
    ensures Numeral(p[..m]) >= 0
    ensures IndexLoop(p, k, x % SIZE_RANGE) == IndexLoop(p, m, Numeral(p[..m]) % SIZE_RANGE)
    decreases m - k
  {
    if k < m {
      assert p[..k+1][..k] == p[..k];
      StepModulo(x, p[k] - ZERO);
      IndexLoopReads(p, k + 1, m, 10 * x + p[k] - ZERO);
    }
  }

  /** A canonical decimal decodes to the number it denotes, as far as `size_t` can hold it. */
  lemma DecodeDigits(n: nat, rest: Text)
    requires AtEnd(rest)
    ensures DecodeIndex(Digits(n) + rest) == Some(n % SIZE_RANGE)
  {
    var ds := Digits(n);
    var p := ds + rest;
    assert p[..0] == [] && p[..|ds|] == ds && p[|ds|..] == rest;
    NumeralOfDigits(n);
    IndexLoopReads(p, 0, |ds|, 0);
    DigitsHead(n);
  }

  lemma FindTokenIsFindKey(ms: seq<Member>, key: Text, rest: Text, caseSensitive: bool)
    requires AtEnd(rest)
    ensures FindToken(ms, Encode(key) + rest, caseSensitive) == FindKey(ms, key, caseSensitive)
  {
    forall i | 0 <= i < |ms|
      ensures ComparePointers(ms[i].key, Encode(key) + rest, caseSensitive) <==>
        CompareStrings(key, ms[i].key, caseSensitive) == 0
    {
      CompareEncoded(ms[i].key, key, rest, caseSensitive);
      SameNameCompares(key, ms[i].key, caseSensitive);
    }
    var a, b := FindToken(ms, Encode(key) + rest, caseSensitive), FindKey(ms, key, caseSensitive);
    if a < b {
    } else if b < a {
    }
  }

  ghost predicate Indexable(j: Json) {
    j.Array? ==> |j.items| <= SIZE_RANGE
  }

  /** One step of a written pointer: it selects the child it names, or an earlier one that shadows it. */
  lemma SelectToken(j: Json, i: nat, rest: Text, caseSensitive: bool)
    requires i < Width(j) && AtEnd(rest) && Indexable(j)
    ensures SkipToken(Token(j, i) + rest) == rest
    ensures j.Array? ==> Select(j, Token(j, i) + rest, caseSensitive) == Some(i)
    ensures j.Object? ==>
      Select(j, Token(j, i) + rest, caseSensitive) == Some(FindKey(j.members, j.members[i].key, caseSensitive))
  {
    hide FindKey, FindToken, DecodeIndex, SkipToken, Encode, Digits;
    if j.Array? {
      SkipUntil(Digits(i), rest);
      DecodeDigits(i, rest);
    } else {
      var key := j.members[i].key;
      EncodeHasNoSlash(key);
      SkipUntil(Encode(key), rest);
      FindTokenIsFindKey(j.members, key, rest, caseSensitive);
      SameNameCompares(key, key, caseSensitive);
    }
  }

  lemma PointerToAtEnd(j: Json, pos: Position)
    requires ValidPosition(j, pos)
    ensures AtEnd(PointerTo(j, pos))
  {}

  lemma ResolveStep(j: Json, i: nat, rest: Text, caseSensitive: bool)
    requires i < Width(j) && AtEnd(rest) && Indexable(j)
    ensures var k := if j.Object? then FindKey(j.members, j.members[i].key, caseSensitive) else i;
      k < Width(j) &&
      Resolve(j, [SLASH] + Token(j, i) + rest, caseSensitive) ==
        (var r := Resolve(Child(j, k), rest, caseSensitive); if r.None? then None else Some([k] + r.value))
  {
    hide FindKey, Token, Select, SkipToken;
    var p := [SLASH] + Token(j, i) + rest;
    assert p[1..] == Token(j, i) + rest;
    SelectToken(j, i, rest, caseSensitive);
  }

  lemma PrefixInjective(k: nat, r: Option<Position>, pos: Position)
    requires pos != []
    ensures (if r.None? then None else Some([k] + r.value)) == Some(pos) <==> k == pos[0] && r == Some(pos[1..])
  {
    assert pos == [pos[0]] + pos[1..];
    if r.Some? && [k] + r.value == pos {
      assert k == ([k] + r.value)[0] && r.value == ([k] + r.value)[1..];
    }
  }

  /** Reading a written pointer returns the node it was written for exactly when no name on the way is shadowed. */
  lemma {:induction false} FindThenResolve(j: Json, pos: Position, caseSensitive: bool)
    requires ValidPosition(j, pos) && Countable(j)
    ensures Resolve(j, PointerTo(j, pos), caseSensitive) == Some(pos) <==> Unshadowed(j, pos, caseSensitive)
    decreases |pos|
  {
    if pos != [] {
      var i, c := pos[0], Child(j, pos[0]);
      var rest := PointerTo(c, pos[1..]);
      PointerToAtEnd(c, pos[1..]);
      ResolveStep(j, i, rest, caseSensitive);
      var k := if j.Object? then FindKey(j.members, j.members[i].key, caseSensitive) else i;
      PrefixInjective(k, Resolve(Child(j, k), rest, caseSensitive), pos);
      assert Countable(c);
      FindThenResolve(c, pos[1..], caseSensitive);
    }
  }

  /** With distinct names the case-sensitive lookup always finds its way back. */
  lemma {:induction false} UniqueIsUnshadowed(j: Json, pos: Position)
    requires ValidPosition(j, pos) && Unique(j)
    ensures Unshadowed(j, pos, true)
    decreases |pos|
  {
    if pos != [] {
      if j.Object? {
        FindKeyExact(j.members, pos[0]);
      }
      UniqueIsUnshadowed(Child(j, pos[0]), pos[1..]);
    }
  }

  lemma PointerRoundTrip(j: Json, pos: Position)
    requires ValidPosition(j, pos) && Unique(j) && Countable(j)
    ensures Resolve(j, PointerTo(j, pos), true) == Some(pos)
  {
    UniqueIsUnshadowed(j, pos);
    FindThenResolve(j, pos, true);
  }
}
