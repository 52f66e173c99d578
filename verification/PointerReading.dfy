/** Which child each token of a pointer selects, whatever bytes the pointer is made of. */
module PointerReading {
  import opened Basics
  import opened Strings
  import opened Json
  import opened Pointer
  import opened PointerProofs

  /** RFC 6901, section 4: a token without its escape sequences, if each `~` in it starts one. */
  function Unescaped(t: Text): Option<Text>
    decreases |t|
  {
    if t == [] then Some([])
    else if Ascii("~0") <= t then Behind(Ascii("~"), Unescaped(t[2..]))
    else if Ascii("~1") <= t then Behind(Ascii("/"), Unescaped(t[2..]))
    else if Ascii("~") <= t then None
    else Behind(t[..1], Unescaped(t[1..]))
  }

  function Behind(s: Text, r: Option<Text>): Option<Text> {
    if r.Some? then Some(s + r.value) else None
  }

  lemma EscapesAre()
    ensures Ascii("~0") == [TILDE, ZERO] && Ascii("~1") == [TILDE, ONE] && Ascii("~") == [TILDE] &&
      Ascii("/") == [SLASH]
  {}

  lemma Heads(t: Text)
    ensures Ascii("~0") <= t <==> |t| > 1 && t[0] == TILDE && t[1] == ZERO
    ensures Ascii("~1") <= t <==> |t| > 1 && t[0] == TILDE && t[1] == ONE
    ensures Ascii("~") <= t <==> t != [] && t[0] == TILDE
  {
    hide Ascii;
    EscapesAre();
  }

  /** Escaping and unescaping undo each other: each readable token is the escaped form of just one name. */
  lemma {:induction false} EscapedExactly(t: Text, k: Text)
    requires SLASH !in t
    ensures Unescaped(t) == Some(k) <==> t == Encode(k)
    decreases |t|
  {
    hide Ascii;
    EscapesAre();
    Heads(t);
    if t == [] {
      assert k != [] ==> Encode(k) != [];
    } else if k != [] {
      var n := if t[0] == TILDE then 2 else 1;
      if n <= |t| {
        EscapedExactly(t[n..], k[1..]);
        EncodedHead(t, k);
        var u := Unescaped(t[n..]);
        if u.Some? {
          ConsExactly(TILDE, u.value, k);
          ConsExactly(SLASH, u.value, k);
          ConsExactly(t[0], u.value, k);
          assert t[..1] == [t[0]];
        }
      } else {
        EncodedHead(t, k);
      }
    }
  }

  lemma ConsExactly(c: Byte, s: Text, k: Text)
    requires k != []
    ensures [c] + s == k <==> c == k[0] && s == k[1..]
  {
    assert k == [k[0]] + k[1..];
  }

  lemma EncodedHead(t: Text, k: Text)
    requires SLASH !in t && t != [] && k != []
    ensures t == Encode(k) <==>
      if t[0] == TILDE then
        |t| > 1 && t[2..] == Encode(k[1..]) && ((t[1] == ZERO && k[0] == TILDE) || (t[1] == ONE && k[0] == SLASH))
      else t[0] == k[0] && t[1..] == Encode(k[1..])
  {
    var e := EncodeByte(k[0]);
    assert Encode(k) == e + Encode(k[1..]);
    if t == Encode(k) {
      assert t[|e|..] == Encode(k[1..]);
      assert t[0] == e[0];
    } else if t[0] == TILDE {
      assert |t| > 1 ==> t == [t[0], t[1]] + t[2..];
    } else {
      assert t == [t[0]] + t[1..];
    }
  }

  /** One step of `compare_pointers`. */
  lemma MatchStep(name: Text, t: Text, rest: Text, caseSensitive: bool)
    requires SLASH !in t && AtEnd(rest) && t != [] && ComparePointers(name, t + rest, caseSensitive)
    ensures name != []
    ensures t[0] == TILDE ==>
      |t| > 1 && (t[1] == ZERO || t[1] == ONE) && ComparePointers(name[1..], t[2..] + rest, caseSensitive)
    ensures t[0] != TILDE ==> ComparePointers(name[1..], t[1..] + rest, caseSensitive)
  {
    var p := t + rest;
    assert p[0] == t[0] && p[1..] == t[1..] + rest;
    if |t| > 1 {
      assert p[1] == t[1] && p[2..] == t[2..] + rest;
    }
  }

  /** A token that cannot be unescaped matches no name. */
  lemma {:induction false} BadEscapeMatchesNothing(name: Text, t: Text, rest: Text, caseSensitive: bool)
    requires SLASH !in t && AtEnd(rest) && Unescaped(t).None?
    ensures !ComparePointers(name, t + rest, caseSensitive)
    decreases |t|
  {
    hide Ascii, ComparePointers;
    EscapesAre();
    Heads(t);
    if ComparePointers(name, t + rest, caseSensitive) {
      MatchStep(name, t, rest, caseSensitive);
      BadEscapeMatchesNothing(name[1..], if t[0] == TILDE then t[2..] else t[1..], rest, caseSensitive);
    }
  }

  /** For every token: it matches just the names that it stands for. */
  lemma MatchesExactly(name: Text, t: Text, rest: Text, caseSensitive: bool)
    requires SLASH !in t && AtEnd(rest)
    ensures ComparePointers(name, t + rest, caseSensitive) <==>
      Unescaped(t).Some? && SameName(name, Unescaped(t).value, caseSensitive)
  {
    hide ComparePointers, Unescaped, Encode;
    if Unescaped(t).Some? {
      EscapedExactly(t, Unescaped(t).value);
      CompareEncoded(name, Unescaped(t).value, rest, caseSensitive);
    } else {
      BadEscapeMatchesNothing(name, t, rest, caseSensitive);
    }
  }

  /** A token in an object selects the first member that is called what it stands for, if there is one. */
  lemma MemberExactly(j: Json, t: Text, rest: Text, caseSensitive: bool)
    requires j.Object? && SLASH !in t && AtEnd(rest)
    ensures Select(j, t + rest, caseSensitive) ==
      if Unescaped(t).None? then None
      else
        var i := FindKey(j.members, Unescaped(t).value, caseSensitive);
        if i < |j.members| then Some(i) else None
  {
    hide ComparePointers, Unescaped, FindKey, FindToken;
    var ms := j.members;
    var i := FindToken(ms, t + rest, caseSensitive);
    forall k | 0 <= k < |ms|
      ensures ComparePointers(ms[k].key, t + rest, caseSensitive) <==>
        Unescaped(t).Some? && SameName(Unescaped(t).value, ms[k].key, caseSensitive)
    {
      MatchesExactly(ms[k].key, t, rest, caseSensitive);
    }
    if Unescaped(t).Some? {
      forall k | 0 <= k < |ms|
        ensures SameName(Unescaped(t).value, ms[k].key, caseSensitive) <==>
          CompareStrings(Unescaped(t).value, ms[k].key, caseSensitive) == 0
      {
        SameNameCompares(Unescaped(t).value, ms[k].key, caseSensitive);
      }
      var f := FindKey(ms, Unescaped(t).value, caseSensitive);
      if i < f {
      } else if f < i {
      }
    }
  }

  // ----- tokens in arrays

  /** The tokens that are taken for an index: a digit first, which is a zero only if it stands alone, and then any bytes
   that are no less than the digit zero; and the empty token. */
  predicate Counts(t: Text) {
    t != [] ==>
      48 <= t[0] <= 57 && (t[0] == 48 ==> |t| == 1) && forall i | 0 <= i < |t| :: t[i] >= 48
  }

  lemma {:induction false} IndexLoopAny(p: Text, k: nat, m: nat, x: nat)
    requires k <= m <= |p| && (m > 0 ==> p[0] <= NINE) && forall i | 0 <= i < m :: p[i] >= ZERO
    requires Numeral(p[..k]) == x
    ensures Numeral(p[..m]) >= 0
    ensures IndexLoop(p, k, x % SIZE_RANGE) == IndexLoop(p, m, Numeral(p[..m]) % SIZE_RANGE)
    decreases m - k
  {
    if k < m {
      assert p[..k+1][..k] == p[..k];
      StepModulo(x, p[k] - ZERO);
      IndexLoopAny(p, k + 1, m, 10 * x + p[k] - ZERO);
    }
  }

  /** For every token: it gives an index exactly if it counts, its decimal value modulo the range of `size_t`. */
  lemma IndexExactly(t: Text, rest: Text)
    requires SLASH !in t && AtEnd(rest)
    ensures Counts(t) ==> Numeral(t) >= 0 && DecodeIndex(t + rest) == Some(Numeral(t) % SIZE_RANGE)
    ensures !Counts(t) ==> DecodeIndex(t + rest).None?
  {
    if t == [] {
      assert t + rest == rest;
    } else if Counts(t) {
      CountingToken(t, rest);
    } else {
      OtherToken(t, rest);
    }
  }

  lemma CountingToken(t: Text, rest: Text)
    requires t != [] && SLASH !in t && AtEnd(rest) && Counts(t)
    ensures Numeral(t) >= 0 && DecodeIndex(t + rest) == Some(Numeral(t) % SIZE_RANGE)
  {
    hide Numeral;
    var p := t + rest;
    NoNumeral();
    assert p[..0] == [] && p[|t|..] == rest && p[..|t|] == t;
    assert p[0] == t[0] && (|t| > 1 ==> p[1] == t[1]);
    IndexLoopAny(p, 0, |t|, 0);
  }

  lemma NoNumeral()
    ensures Numeral([]) == 0
  {}

  lemma OtherToken(t: Text, rest: Text)
    requires t != [] && SLASH !in t && AtEnd(rest) && !Counts(t)
    ensures DecodeIndex(t + rest).None?
  {
    hide Numeral;
    var p := t + rest;
    NoNumeral();
    assert p[..0] == [] && p[0] == t[0] && (|t| > 1 ==> p[1] == t[1]);
    if 48 <= t[0] <= 57 && (t[0] == 48 ==> |t| == 1) {
      var n := FirstBelow(t);
      IndexLoopAny(p, 0, n, 0);
      assert p[n] == t[n] && p[n..][0] == t[n];
    }
  }

  lemma FirstBelow(t: Text) returns (n: nat)
    requires exists i :: 0 <= i < |t| && t[i] < 48
    ensures n < |t| && t[n] < 48 && forall i | 0 <= i < n :: t[i] >= 48
    decreases |t|
  {
    n := 0;
    while t[n] >= 48
      invariant n < |t| && forall i | 0 <= i < n :: t[i] >= 48
      decreases |t| - n
    {
      n := n + 1;
    }
  }

  /** RFC 6901, section 4, lets an index be a decimal without leading zeros: those tokens count, with their value; and
   what counts and is made of digits is the empty token or one of those. */
  lemma {:induction false} CountsDecimals(t: Text)
    ensures t != [] && Counts(t) && (forall i | 0 <= i < |t| :: t[i] <= 57) <==>
      Numeral(t) >= 0 && Digits(Numeral(t)) == t
    decreases |t|
  {
    if t != [] && Counts(t) && forall i | 0 <= i < |t| :: t[i] <= 57 {
      DecimalOf(t);
    } else if Numeral(t) >= 0 && Digits(Numeral(t)) == t {
      DigitsHead(Numeral(t));
    }
  }

  lemma {:induction false} DecimalOf(t: Text)
    requires t != [] && Counts(t) && forall i | 0 <= i < |t| :: t[i] <= 57
    ensures Numeral(t) >= 0 && Digits(Numeral(t)) == t && (t[0] != 48 ==> Numeral(t) > 0)
    decreases |t|
  {
    var front, d := t[..|t|-1], t[|t|-1] - 48;
    assert t == front + [48 + d];
    if front == [] {
      assert Numeral(front) == 0;
    } else {
      assert front[0] == t[0];
      DecimalOf(front);
      assert (10 * Numeral(front) + d) / 10 == Numeral(front) && (10 * Numeral(front) + d) % 10 == d;
    }
  }

  /** So the empty token selects the first element, and a letter behind a digit counts as well. */
  lemma OddIndices()
    ensures DecodeIndex([]) == Some(0)
    ensures DecodeIndex(Ascii("1A")) == Some(27)
  {
    var t := Ascii("1A");
    assert t == [49, 65];
    assert t[..1] == [49] && [49][..0] == [];
    assert Numeral([49]) == 1;
    assert Numeral(t) == 27;
    IndexExactly(t, []);
    assert t + [] == t;
  }

  // ----- pointers

  /** Reading goes token by token. What does not start with a slash leads to where reading starts. */
  lemma ReadsTokens(j: Json, t: Text, rest: Text, caseSensitive: bool)
    requires SLASH !in t && AtEnd(rest)
    ensures var i := Select(j, t + rest, caseSensitive);
      Resolve(j, [SLASH] + t + rest, caseSensitive) ==
        if i.None? then None
        else
          var r := Resolve(Child(j, i.value), rest, caseSensitive);
          if r.None? then None else Some([i.value] + r.value)
    ensures forall p: Text :: p == [] || p[0] != SLASH ==> Resolve(j, p, caseSensitive) == Some([])
  {
    hide Select, SkipToken;
    SkipUntil(t, rest);
    assert ([SLASH] + t + rest)[1..] == t + rest;
  }
}
