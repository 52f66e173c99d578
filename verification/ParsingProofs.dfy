/** What holds of every input the parser is given. */
module ParsingProofs {
  import opened Strings
  import opened Sorting
  import opened Json
  import opened Printing
  import opened Parsing

  ghost predicate SuffixOf(r: Text, s: Text) {
    |r| <= |s| && r == s[|s| - |r|..]
  }

  /** The input does not end in a comma. */
  predicate Closed(s: Text) {
    s == [] || s[|s|-1] != COMMA
  }

  lemma SuffixTransitive(a: Text, b: Text, c: Text)
    requires SuffixOf(a, b) && SuffixOf(b, c)
    ensures SuffixOf(a, c) && (Closed(c) ==> Closed(a))
  {}

  lemma SuffixDrop(s: Text, n: nat)
    requires n <= |s|
    ensures SuffixOf(s[n..], s) && (Closed(s) ==> Closed(s[n..]))
  {}

  lemma {:induction false} DropSpaceSuffix(s: Text)
    ensures SuffixOf(DropSpace(s), s)
    ensures DropSpace(s) != [] ==> DropSpace(s)[0] > 32
  {
    if s != [] && s[0] <= 32 {
      DropSpaceSuffix(s[1..]);
    }
  }

  lemma SkipSpaceSuffix(s: Text)
    ensures SuffixOf(SkipSpace(s), s) && (Closed(s) ==> Closed(SkipSpace(s)))
  {
    DropSpaceSuffix(s);
  }

  lemma NothingBehindComma(s: Text)
    requires s != [] && s[0] == COMMA && s[1..] == []
    ensures !Closed(s)
  {}

  /** What parsing promises: no read past the end unless the last byte is a comma, and only trees that C data can hold
   and that are nested no deeper than the limit allows. */
  ghost predicate Promise<T(!new)>(r: Outcome<T>, s: Text, good: T -> bool) {
    && (Closed(s) ==> !r.Overrun?)
    && (r.Ok? ==> SuffixOf(r.rest, s) && good(r.value))
  }

  function Allowed(depth: nat): nat {
    if depth < NESTING_LIMIT then NESTING_LIMIT - depth else 0
  }

  ghost predicate GoodTree(j: Json, depth: nat) {
    Plain(j) && NoInvalid(j) && Appendable(j) && Depth(j) <= Allowed(depth)
  }

  lemma {:induction false} CStringNulFree(s: Text)
    ensures NulFree(CString(s))
  {
    if s != [] && s[0] != 0 {
      CStringNulFree(s[1..]);
    }
  }

  lemma StringPromise(s: Text)
    ensures Closed(s) && s != [] ==> !ParseString(s).Overrun?
    ensures ParseString(s).Ok? ==> SuffixOf(ParseString(s).rest, s) && NulFree(ParseString(s).value)
  {
    if ParseString(s).Ok? {
      var end := ClosingQuote(s[1..]);
      CStringNulFree(Decode(s[1..], end).bytes);
      SuffixDrop(s, end + 2);
    }
  }

  lemma {:induction false} ValuePromise(s: Text, depth: nat, strtod: Strtod)
    ensures Promise(ParseValue(s, depth, strtod), s, j => GoodTree(j, depth))
    decreases |s|, 1
  {
    hide ParseArray, ParseObject, ParseString, ParseNumber, SuffixOf, Closed;
    if HasPrefix(s, NULL_TEXT) || HasPrefix(s, TRUE_TEXT) {
      SuffixDrop(s, 4);
    } else if HasPrefix(s, FALSE_TEXT) {
      SuffixDrop(s, 5);
    } else if s != [] && s[0] == QUOTE {
      StringPromise(s);
    } else if s != [] && (s[0] == MINUS || 48 <= s[0] <= 57) {
      NumberPromise(s, depth, strtod);
    } else if s != [] && s[0] == OPEN_BRACKET {
      ArrayPromise(s, depth, strtod);
    } else if s != [] && s[0] == OPEN_BRACE {
      ObjectPromise(s, depth, strtod);
    }
  }

  lemma NumberPromise(s: Text, depth: nat, strtod: Strtod)
    ensures Promise(ParseNumber(s, strtod), s, j => GoodTree(j, depth))
  {
    var taken := strtod(NumberText(s, 63)).0;
    SuffixDrop(s, taken);
  }

  lemma EmptyGood(depth: nat)
    requires depth < NESTING_LIMIT
    ensures GoodTree(Array([]), depth) && GoodTree(Object([]), depth)
  {}

  lemma ArrayStep(s: Text, depth: nat, strtod: Strtod)
    requires s != [] && s[0] == OPEN_BRACKET
    ensures var t := SkipSpace(s[1..]);
      ParseArray(s, depth, strtod)
      == if depth >= NESTING_LIMIT then Fail(|s|)
         else if t != [] && t[0] == CLOSE_BRACKET then Ok(Array([]), t[1..])
         else if t == [] then Fail(1)
         else
           var r := ParseElements(t, depth + 1, strtod);
           if r.Ok? then Ok(Array(r.value), r.rest) else if r.Fail? then Fail(r.left) else Overrun
  {
    hide SkipSpace, ParseElements;
  }

  lemma ObjectStep(s: Text, depth: nat, strtod: Strtod)
    requires s != [] && s[0] == OPEN_BRACE
    ensures var t := SkipSpace(s[1..]);
      ParseObject(s, depth, strtod)
      == if depth >= NESTING_LIMIT then Fail(|s|)
         else if t != [] && t[0] == CLOSE_BRACE then Ok(Object([]), t[1..])
         else if t == [] then Fail(1)
         else
           var r := ParseMembers(t, depth + 1, strtod);
           if r.Ok? then Ok(Object(r.value), r.rest) else if r.Fail? then Fail(r.left) else Overrun
  {
    hide SkipSpace, ParseMembers;
  }

  lemma {:induction false} ArrayPromise(s: Text, depth: nat, strtod: Strtod)
    requires s != [] && s[0] == OPEN_BRACKET
    ensures Promise(ParseArray(s, depth, strtod), s, j => GoodTree(j, depth))
    decreases |s|, 0
  {
    hide ParseArray, ParseElements, SkipSpace, SuffixOf, Closed, GoodTree, GoodTrees;
    ArrayStep(s, depth, strtod);
    var t := SkipSpace(s[1..]);
    SkipSpaceSuffix(s[1..]);
    SuffixDrop(s, 1);
    SuffixTransitive(t, s[1..], s);
    if depth < NESTING_LIMIT && t != [] {
      if t[0] == CLOSE_BRACKET {
        SuffixDrop(t, 1);
        SuffixTransitive(t[1..], t, s);
        EmptyGood(depth);
      } else {
        ElementsPromise(t, depth + 1, strtod);
        var items := ParseElements(t, depth + 1, strtod);
        if items.Ok? {
          SuffixTransitive(items.rest, t, s);
          GoodArray(items.value, depth);
        }
      }
    }
  }

  ghost predicate GoodTrees(items: seq<Json>, depth: nat) {
    forall i | 0 <= i < |items| :: GoodTree(items[i], depth)
  }

  lemma GoodArray(items: seq<Json>, depth: nat)
    requires GoodTrees(items, depth + 1) && depth < NESTING_LIMIT
    ensures GoodTree(Array(items), depth)
  {
    DeepestItemIsLeast(items, Allowed(depth + 1));
  }

  lemma ElementsUnfold(s: Text, depth: nat, strtod: Strtod)
    ensures var v := ParseValue(SkipSpace(s), depth, strtod);
      && (v.Fail? ==> ParseElements(s, depth, strtod) == Fail(v.left))
      && (v.Overrun? ==> ParseElements(s, depth, strtod) == Overrun)
      && (v.Ok? ==>
        var t := SkipSpace(v.rest);
        if t != [] && t[0] == COMMA then
          var more := ParseElements(t[1..], depth, strtod);
          ParseElements(s, depth, strtod) == if more.Ok? then Ok([v.value] + more.value, more.rest) else more
        else ParseElements(s, depth, strtod) == if t != [] && t[0] == CLOSE_BRACKET then Ok([v.value], t[1..])
          else Fail(|t|))
  {
    hide ParseValue, SkipSpace;
  }

  lemma {:induction false} ElementsPromise(s: Text, depth: nat, strtod: Strtod)
    ensures Promise(ParseElements(s, depth, strtod), s, items => GoodTrees(items, depth))
    decreases |s|, 2
  {
    hide ParseValue, ParseElements, SkipSpace, GoodTree, SuffixOf, Closed;
    ElementsUnfold(s, depth, strtod);
    SkipSpaceSuffix(s);
    ValuePromise(SkipSpace(s), depth, strtod);
    var v := ParseValue(SkipSpace(s), depth, strtod);
    assert v.Ok? ==> GoodTree(v.value, depth);
    if v.Ok? {
      SuffixTransitive(v.rest, SkipSpace(s), s);
      var t := SkipSpace(v.rest);
      SkipSpaceSuffix(v.rest);
      SuffixTransitive(t, v.rest, s);
      if t != [] {
        SuffixDrop(t, 1);
        SuffixTransitive(t[1..], t, s);
        if t[0] == COMMA {
          ElementsPromise(t[1..], depth, strtod);
          var more := ParseElements(t[1..], depth, strtod);
          if more.Ok? {
            SuffixTransitive(more.rest, t[1..], s);
          }
        }
      }
    }
  }

  lemma {:induction false} ObjectPromise(s: Text, depth: nat, strtod: Strtod)
    requires s != [] && s[0] == OPEN_BRACE
    ensures Promise(ParseObject(s, depth, strtod), s, j => GoodTree(j, depth))
    decreases |s|, 0
  {
    hide ParseObject, ParseMembers, SkipSpace, SuffixOf, Closed, GoodTree, GoodMembers;
    ObjectStep(s, depth, strtod);
    var t := SkipSpace(s[1..]);
    SkipSpaceSuffix(s[1..]);
    SuffixDrop(s, 1);
    SuffixTransitive(t, s[1..], s);
    if depth < NESTING_LIMIT && t != [] {
      if t[0] == CLOSE_BRACE {
        SuffixDrop(t, 1);
        SuffixTransitive(t[1..], t, s);
        EmptyGood(depth);
      } else {
        MembersPromise(t, depth + 1, strtod);
        var members := ParseMembers(t, depth + 1, strtod);
        if members.Ok? {
          SuffixTransitive(members.rest, t, s);
          GoodObject(members.value, depth);
        }
      }
    }
  }

  ghost predicate GoodMember(m: Member, depth: nat) {
    NulFree(m.key) && GoodTree(m.value, depth)
  }

  ghost predicate GoodMembers(ms: seq<Member>, depth: nat) {
    forall i | 0 <= i < |ms| :: GoodMember(ms[i], depth)
  }

  lemma GoodObject(ms: seq<Member>, depth: nat)
    requires GoodMembers(ms, depth + 1) && depth < NESTING_LIMIT
    ensures GoodTree(Object(ms), depth)
  {
    DeepestMemberIsLeast(ms, Allowed(depth + 1));
  }

  lemma NamePromise(s: Text)
    ensures ParseName(s).Ok? ==> SuffixOf(ParseName(s).rest, s) && NulFree(ParseName(s).value)
    ensures Closed(s) && ParseName(s).Ok? ==> Closed(ParseName(s).rest)
  {
    hide SkipSpace, ParseString, SuffixOf, Closed, NulFree;
    SkipSpaceSuffix(s);
    var name := ParseString(SkipSpace(s));
    StringPromise(SkipSpace(s));
    if name.Ok? {
      SuffixTransitive(name.rest, SkipSpace(s), s);
      var t := SkipSpace(name.rest);
      SkipSpaceSuffix(name.rest);
      SuffixTransitive(t, name.rest, s);
      if t != [] {
        SuffixDrop(t, 1);
        SuffixTransitive(t[1..], t, s);
      }
    }
  }

  lemma {:induction false} MemberPromise(s: Text, depth: nat, strtod: Strtod)
    ensures s != [] ==> Promise(ParseMember(s, depth, strtod), s, m => GoodMember(m, depth))
    decreases |s|, 2
  {
    hide ParseValue, SkipSpace, ParseName, GoodTree, SuffixOf, Closed;
    NamePromise(s);
    var name := ParseName(s);
    if name.Ok? {
      SkipSpaceSuffix(name.rest);
      var u := SkipSpace(name.rest);
      SuffixTransitive(u, name.rest, s);
      ValuePromise(u, depth, strtod);
      var v := ParseValue(u, depth, strtod);
      if v.Ok? {
        SuffixTransitive(v.rest, u, s);
      }
    }
  }

  lemma {:induction false} MembersPromise(s: Text, depth: nat, strtod: Strtod)
    ensures s != [] ==> Promise(ParseMembers(s, depth, strtod), s, ms => GoodMembers(ms, depth))
    decreases |s|, 3
  {
    hide ParseMember, SkipSpace, GoodMember, SuffixOf, Closed;
    MemberPromise(s, depth, strtod);
    var m := ParseMember(s, depth, strtod);
    if s != [] && m.Ok? {
      var t := SkipSpace(m.rest);
      SkipSpaceSuffix(m.rest);
      SuffixTransitive(t, m.rest, s);
      if t != [] {
        SuffixDrop(t, 1);
        SuffixTransitive(t[1..], t, s);
        if t[0] == COMMA && t[1..] == [] {
          NothingBehindComma(t);
        } else if t[0] == COMMA {
          MembersPromise(t[1..], depth, strtod);
          var more := ParseMembers(t[1..], depth, strtod);
          if more.Ok? {
            SuffixTransitive(more.rest, t[1..], s);
          }
        }
      }
    }
  }

  /** For every input, terminated or not: the parser stops; it reads past the end only if the last byte is a comma; what
   it accepts is a tree that C data can hold and that can be appended to everywhere, nested within the limit, and what
   is left is the end of the input. */
  lemma ParsePromises(content: Text, requireNul: bool, strtod: Strtod)
    ensures Closed(content) ==> !Parse(content, requireNul, strtod).Overrun?
    ensures Parse(content, requireNul, strtod).Ok? ==> var r := Parse(content, requireNul, strtod);
      GoodTree(r.value, 0) && SuffixOf(r.rest, content) && (requireNul ==> r.rest != [] && r.rest[0] == 0)
  {
    hide ParseValue, SkipSpace, SkipBom, SuffixOf, Closed, GoodTree;
    var s := SkipBom(content);
    BomSuffix(content);
    SkipSpaceSuffix(s);
    SuffixTransitive(SkipSpace(s), s, content);
    ValuePromised(SkipSpace(s), strtod);
    var v := ParseValue(SkipSpace(s), 0, strtod);
    if v.Ok? {
      SuffixTransitive(v.rest, SkipSpace(s), content);
      SkipSpaceSuffix(v.rest);
      SuffixTransitive(SkipSpace(v.rest), v.rest, content);
    }
  }

  lemma ValuePromised(s: Text, strtod: Strtod)
    ensures Closed(s) ==> !ParseValue(s, 0, strtod).Overrun?
    ensures var v := ParseValue(s, 0, strtod); v.Ok? ==> SuffixOf(v.rest, s) && GoodTree(v.value, 0)
  {
    hide ParseValue, SuffixOf, Closed, GoodTree;
    ValuePromise(s, 0, strtod);
  }

  lemma BomSuffix(s: Text)
    ensures SuffixOf(SkipBom(s), s) && (Closed(s) ==> Closed(SkipBom(s)))
  {
    SuffixDrop(s, 3 * if |s| > 4 && s[..3] == [0xEF, 0xBB, 0xBF] then 1 else 0);
    assert s[0..] == s;
  }

  /** `{"a":null,`: the name of the next member is looked for behind the last byte. */
  const OVERRUN_TEXT: Text := [OPEN_BRACE, QUOTE, 97, QUOTE, COLON] + NULL_TEXT + [COMMA]

  lemma OverrunBehindComma(strtod: Strtod)
    ensures Parse(OVERRUN_TEXT, false, strtod) == Overrun
  {
    hide ParseMembers;
    var s, t := OVERRUN_TEXT, OVERRUN_TEXT[1..];
    assert s[0] == OPEN_BRACE && t[0] == QUOTE;
    assert SkipBom(s) == s by { assert s[..3][0] == OPEN_BRACE; }
    assert SkipSpace(s) == s && SkipSpace(t) == t;
    OverrunBehindMember(strtod);
    assert ParseObject(s, 0, strtod) == Overrun;
    assert ParseValue(s, 0, strtod) == Overrun by {
      assert s[..4][0] == s[..5][0] == OPEN_BRACE;
    }
  }

  lemma OverrunBehindMember(strtod: Strtod)
    ensures ParseMembers(OVERRUN_TEXT[1..], 1, strtod) == Overrun
  {
    var t := OVERRUN_TEXT[1..];
    var value := NULL_TEXT + [COMMA];
    assert t == [QUOTE, 97, QUOTE, COLON] + value;
    NameAndColon(value);
    assert value[..4] == NULL_TEXT && value[4..] == [COMMA];
    assert SkipSpace(value) == value;
    assert ParseValue(value, 1, strtod) == Ok(Null, [COMMA]);
    assert ParseMember(t, 1, strtod) == Ok(Entry([97], Null), [COMMA]);
    assert SkipSpace([COMMA]) == [COMMA] && [COMMA][1..] == [];
    assert ParseMembers([], 1, strtod) == Overrun;
  }

  lemma NameAndColon(value: Text)
    ensures ParseName([QUOTE, 97, QUOTE, COLON] + value) == Ok([97], value)
  {
    var t := [QUOTE, 97, QUOTE, COLON] + value;
    var literal := t[1..];
    assert literal == [97, QUOTE, COLON] + value;
    NameA(literal);
    assert t[3..] == [COLON] + value && t[3..][1..] == value;
    assert SkipSpace(t) == t && SkipSpace(t[3..]) == t[3..];
  }

  lemma NameA(s: Text)
    requires |s| > 2 && s[0] == 97 && s[1] == QUOTE
    ensures ClosingQuote(s) == 1 && Decode(s, 1) == Bytes([97]) && CString([97]) == [97]
  {
    assert Decode(s[1..], 0) == Bytes([]);
    assert [97][1..] == [];
  }
}
