/** The parser accepts exactly the texts of the grammar, and gives them the meaning they have there. */
module GrammarProofs {
  import opened Strings
  import opened Sorting
  import opened Json
  import opened Printing
  import opened Parsing
  import opened ParsingProofs
  import opened ParsePrint
  import opened Grammar
  import opened GrammarTexts

  // ----- spelling in front of a text

  /** The text of a node with something behind it is its text, and that behind it. */
  lemma {:induction false} SpellInFront(n: Node, a: Text, b: Text)
    ensures Spell(n, a + b) == Spell(n, a) + b
    decreases n, 0
  {
    hide Ascii, SpellItems, SpellFields;
    match n
    case List(blank, items) =>
      if items != [] {
        ItemsInFront(items, a, b);
      }
    case Record(blank, fields) =>
      if fields != [] {
        FieldsInFront(fields, a, b);
      }
    case _ =>
  }

  lemma {:induction false} ItemsInFront(items: seq<Slot>, a: Text, b: Text)
    requires items != []
    ensures SpellItems(items, a + b) == SpellItems(items, a) + b
    decreases items, 1
  {
    hide Spell, SpellItems;
    var slot, rest := items[0], items[1..];
    ItemsHead(items, a + b);
    ItemsHead(items, a);
    if rest != [] {
      ItemsInFront(rest, a, b);
    }
    assert BehindItem(rest, a + b) == BehindItem(rest, a) + b;
    var after := slot.after + BehindItem(rest, a);
    assert slot.after + BehindItem(rest, a + b) == after + b;
    SpellInFront(slot.node, after, b);
  }

  lemma {:induction false} FieldsInFront(fields: seq<Field>, a: Text, b: Text)
    requires fields != []
    ensures SpellFields(fields, a + b) == SpellFields(fields, a) + b
    decreases fields, 1
  {
    hide Spell, SpellFields, SpellField;
    var f, rest := fields[0], fields[1..];
    FieldsHead(fields, a + b);
    FieldsHead(fields, a);
    if rest != [] {
      FieldsInFront(rest, a, b);
    }
    assert BehindField(rest, a + b) == BehindField(rest, a) + b;
    FieldInFront(f, BehindField(rest, a), b);
  }

  lemma {:induction false} FieldInFront(f: Field, a: Text, b: Text)
    ensures SpellField(f, a + b) == SpellField(f, a) + b
    decreases f, 0
  {
    hide Spell;
    var after := f.value.after + a;
    assert f.value.after + (a + b) == after + b;
    SpellInFront(f.value.node, after, b);
    var value := Spell(f.value.node, after);
    var colon := [COLON] + (f.value.before + value);
    assert [COLON] + (f.value.before + (value + b)) == colon + b;
    assert f.between + (colon + b) == (f.between + colon) + b;
    assert SpellLiteral(f.name, (f.between + colon) + b) == SpellLiteral(f.name, f.between + colon) + b;
  }

  // ----- what derives is accepted

  lemma SpellVisible(n: Node, post: Text, strtod: Strtod)
    requires SoundBefore(n, post, strtod)
    ensures Visible(Spell(n, post))
    ensures var c := Spell(n, post)[0]; c != CLOSE_BRACKET && c != CLOSE_BRACE && c != 0xEF && c != 0
  {
    hide Ascii, LiteralSound, SpellItems, SpellFields, SlotSound, FieldSound;
    WordsAre();
  }

  /** What stands behind a value inside an array or object. */
  ghost predicate Delimits(behind: Text) {
    Visible(behind) && Ends(behind)
  }

  lemma BehindBlank(ws: Text, behind: Text)
    requires Blank(ws) && Delimits(behind)
    ensures Ends(ws + behind) && SkipSpace(ws + behind) == behind
  {
    SkipAhead(ws, behind);
  }

  lemma Alone(n: Node, post: Text, strtod: Strtod)
    requires Ends(post)
    ensures SoundBefore(n, post, strtod) <==> Sound(n, strtod)
  {
    hide NumeralSound, Ends;
    if n.Numeral? {
      NumeralAlone(n.text, n.n, post, strtod);
    }
  }

  /** Nested no deeper than the parser goes from here. */
  ghost predicate Fits(n: Node, depth: nat) {
    Depth(Meaning(n)) <= Allowed(depth)
  }

  lemma {:induction false} Accepted(n: Node, post: Text, depth: nat, strtod: Strtod)
    requires SoundBefore(n, post, strtod) && Fits(n, depth)
    ensures ParseValue(Spell(n, post), depth, strtod) == Ok(Meaning(n), post)
    decreases n, 1
  {
    hide ParseValue, Ascii, LiteralSound, NumeralSound;
    match n
    case NullWord => WordsAre(); ConstantsBack(depth, strtod, post);
    case FalseWord => WordsAre(); ConstantsBack(depth, strtod, post);
    case TrueWord => WordsAre(); ConstantsBack(depth, strtod, post);
    case Numeral(text, k) => NumeralAccepted(text, k, post, depth, strtod);
    case Quoted(literal) =>
      LiteralRead(literal, post);
      ByFirstByte(SpellLiteral(literal, post), depth, strtod);
    case List(blank, items) => ListAccepted(blank, items, post, depth, strtod);
    case Record(blank, fields) => RecordAccepted(blank, fields, post, depth, strtod);
  }

  lemma NumeralAccepted(text: Text, k: int, post: Text, depth: nat, strtod: Strtod)
    requires NumeralSound(text, k, post, strtod)
    ensures ParseValue(text + post, depth, strtod) == Ok(Number(k), post)
  {
    hide ParseValue, ParseNumber;
    NumeralHead(text, k, post, strtod);
    NumeralIs(text, k, post, strtod);
    ByFirstByte(text + post, depth, strtod);
  }

  lemma NumeralHead(text: Text, k: int, post: Text, strtod: Strtod)
    requires NumeralSound(text, k, post, strtod)
    ensures text != [] && (text[0] == MINUS || 48 <= text[0] <= 57) && (text + post)[0] == text[0]
  {}

  ghost predicate SlotsGood(items: seq<Slot>, depth: nat, strtod: Strtod) {
    forall i | 0 <= i < |items| :: SlotSound(items[i], strtod) && Fits(items[i].node, depth)
  }

  ghost predicate FieldsGood(fields: seq<Field>, depth: nat, strtod: Strtod) {
    forall i | 0 <= i < |fields| :: FieldSound(fields[i], strtod) && Fits(fields[i].value.node, depth)
  }

  lemma ListParts(blank: Text, items: seq<Slot>, depth: nat, strtod: Strtod)
    requires Sound(List(blank, items), strtod) && Fits(List(blank, items), depth)
    ensures depth < NESTING_LIMIT && Blank(blank) && SlotsGood(items, depth + 1, strtod)
  {
    var values := ItemsMeaning(items);
    forall i | 0 <= i < |items|
      ensures Fits(items[i].node, depth + 1)
    {
      assert Depth(values[i]) <= DeepestItem(values);
    }
  }

  lemma RecordParts(blank: Text, fields: seq<Field>, depth: nat, strtod: Strtod)
    requires Sound(Record(blank, fields), strtod) && Fits(Record(blank, fields), depth)
    ensures depth < NESTING_LIMIT && Blank(blank) && FieldsGood(fields, depth + 1, strtod)
  {
    var ms := FieldsMeaning(fields);
    forall i | 0 <= i < |fields|
      ensures Fits(fields[i].value.node, depth + 1)
    {
      assert Depth(ms[i].value) <= DeepestMember(ms);
    }
  }

  lemma {:induction false} ListAccepted(blank: Text, items: seq<Slot>, post: Text, depth: nat, strtod: Strtod)
    requires Sound(List(blank, items), strtod) && Fits(List(blank, items), depth)
    ensures ParseValue(Spell(List(blank, items), post), depth, strtod) == Ok(Meaning(List(blank, items)), post)
    decreases items, 3
  {
    hide ParseValue, ParseElements, SkipSpace, SpellItems, Sound, Fits, SlotsGood;
    ListParts(blank, items, depth, strtod);
    var s := Spell(List(blank, items), post);
    ByFirstByte(s, depth, strtod);
    if items == [] {
      assert s[1..] == blank + ([CLOSE_BRACKET] + post);
      SkipAhead(blank, [CLOSE_BRACKET] + post);
      assert ItemsMeaning(items) == [];
    } else {
      var inner := SpellItems(items, post);
      assert s[1..] == inner;
      ItemsStart(items, post, depth + 1, strtod);
      ItemsAccepted(items, post, depth + 1, strtod);
      ElementsSkipped(inner, depth + 1, strtod);
    }
  }

  lemma ItemsStart(items: seq<Slot>, post: Text, depth: nat, strtod: Strtod)
    requires items != [] && SlotsGood(items, depth, strtod)
    ensures var t := SkipSpace(SpellItems(items, post)); Visible(t) && t[0] != CLOSE_BRACKET
  {
    hide Spell, SpellItems, Sound;
    var slot := items[0];
    var behind := BehindItem(items[1..], post);
    ItemsHead(items, post);
    BehindItemDelimits(items[1..], post);
    BehindBlank(slot.after, behind);
    Alone(slot.node, slot.after + behind, strtod);
    SpellVisible(slot.node, slot.after + behind, strtod);
    SkipAhead(slot.before, Spell(slot.node, slot.after + behind));
  }

  /** What stands behind an element, and behind a member. */
  function BehindItem(rest: seq<Slot>, post: Text): Text {
    if rest == [] then [CLOSE_BRACKET] + post else [COMMA] + SpellItems(rest, post)
  }

  function BehindField(rest: seq<Field>, post: Text): Text {
    if rest == [] then [CLOSE_BRACE] + post else [COMMA] + SpellFields(rest, post)
  }

  lemma BehindItemDelimits(rest: seq<Slot>, post: Text)
    ensures Delimits(BehindItem(rest, post))
  {
    hide SpellItems;
  }

  lemma BehindFieldDelimits(rest: seq<Field>, post: Text)
    ensures Delimits(BehindField(rest, post))
  {
    hide SpellFields;
  }

  lemma ItemsHead(items: seq<Slot>, post: Text)
    requires items != []
    ensures SpellItems(items, post) ==
      items[0].before + Spell(items[0].node, items[0].after + BehindItem(items[1..], post))
  {}

  lemma FieldsHead(fields: seq<Field>, post: Text)
    requires fields != []
    ensures SpellFields(fields, post) == SpellField(fields[0], BehindField(fields[1..], post))
  {}

  lemma SkipTwice(s: Text)
    ensures SkipSpace(SkipSpace(s)) == SkipSpace(s)
  {}

  lemma ElementsSkipped(s: Text, depth: nat, strtod: Strtod)
    ensures ParseElements(SkipSpace(s), depth, strtod) == ParseElements(s, depth, strtod)
  {
    SkipTwice(s);
    hide SkipSpace, ParseValue;
  }

  lemma MembersSkipped(s: Text, depth: nat, strtod: Strtod)
    ensures ParseMembers(SkipSpace(s), depth, strtod) == ParseMembers(s, depth, strtod)
  {
    SkipTwice(s);
    hide SkipSpace, ParseValue, ParseString;
  }

  /** One round of the loop of `parse_array`. */
  lemma ElementsStep(s: Text, depth: nat, strtod: Strtod)
    ensures var v := ParseValue(SkipSpace(s), depth, strtod);
      ParseElements(s, depth, strtod) ==
        if v.Fail? then Fail(v.left)
        else if v.Overrun? then Overrun
        else
          var t := SkipSpace(v.rest);
          if t != [] && t[0] == COMMA then
            var more := ParseElements(t[1..], depth, strtod);
            if more.Ok? then Ok([v.value] + more.value, more.rest) else more
          else if t != [] && t[0] == CLOSE_BRACKET then Ok([v.value], t[1..])
          else Fail(|t|)
  {
    hide ParseValue, SkipSpace;
  }

  lemma MembersStep(s: Text, depth: nat, strtod: Strtod)
    ensures var m := ParseMember(s, depth, strtod);
      ParseMembers(s, depth, strtod) ==
        if m.Fail? then Fail(m.left)
        else if m.Overrun? then Overrun
        else
          var t := SkipSpace(m.rest);
          if t != [] && t[0] == COMMA then
            var more := ParseMembers(t[1..], depth, strtod);
            if more.Ok? then Ok([m.value] + more.value, more.rest) else more
          else if t != [] && t[0] == CLOSE_BRACE then Ok([m.value], t[1..])
          else Fail(|t|)
  {
    hide ParseMember, SkipSpace;
  }

  lemma {:induction false} ItemsAccepted(items: seq<Slot>, post: Text, depth: nat, strtod: Strtod)
    requires items != [] && SlotsGood(items, depth, strtod)
    ensures ParseElements(SpellItems(items, post), depth, strtod) == Ok(ItemsMeaning(items), post)
    decreases items, 2
  {
    hide ParseValue, ParseElements, SkipSpace, SpellItems, Spell, Sound, Meaning, Fits, Delimits;
    var slot, rest := items[0], items[1..];
    var behind := BehindItem(rest, post);
    var after := slot.after + behind;
    ItemsHead(items, post);
    BehindItemDelimits(rest, post);
    BehindBlank(slot.after, behind);
    Alone(slot.node, after, strtod);
    SpellVisible(slot.node, after, strtod);
    SkipAhead(slot.before, Spell(slot.node, after));
    Accepted(slot.node, after, depth, strtod);
    ElementsStep(SpellItems(items, post), depth, strtod);
    if rest == [] {
      assert behind[1..] == post;
      assert ItemsMeaning(items) == [Meaning(slot.node)];
    } else {
      assert behind[1..] == SpellItems(rest, post);
      ItemsAccepted(rest, post, depth, strtod);
      assert ItemsMeaning(items) == [Meaning(slot.node)] + ItemsMeaning(rest);
    }
  }

  lemma {:induction false} RecordAccepted(blank: Text, fields: seq<Field>, post: Text, depth: nat, strtod: Strtod)
    requires Sound(Record(blank, fields), strtod) && Fits(Record(blank, fields), depth)
    ensures ParseValue(Spell(Record(blank, fields), post), depth, strtod) == Ok(Meaning(Record(blank, fields)), post)
    decreases fields, 3
  {
    hide ParseValue, ParseMembers, SkipSpace, SpellFields, Sound, Fits, FieldsGood;
    RecordParts(blank, fields, depth, strtod);
    var s := Spell(Record(blank, fields), post);
    ByFirstByte(s, depth, strtod);
    if fields == [] {
      assert s[1..] == blank + ([CLOSE_BRACE] + post);
      SkipAhead(blank, [CLOSE_BRACE] + post);
      assert FieldsMeaning(fields) == [];
    } else {
      var inner := SpellFields(fields, post);
      assert s[1..] == inner;
      FieldsStart(fields, post, depth + 1, strtod);
      FieldsAccepted(fields, post, depth + 1, strtod);
      MembersSkipped(inner, depth + 1, strtod);
    }
  }

  lemma FieldsStart(fields: seq<Field>, post: Text, depth: nat, strtod: Strtod)
    requires fields != [] && FieldsGood(fields, depth, strtod)
    ensures var t := SkipSpace(SpellFields(fields, post)); Visible(t) && t[0] == QUOTE
  {
    hide SpellFields, SpellSlot, Sound, LiteralSound;
    var f := fields[0];
    FieldsHead(fields, post);
    SkipAhead(f.before,
      SpellLiteral(f.name, f.between + ([COLON] + SpellSlot(f.value, BehindField(fields[1..], post)))));
  }

  /** One member: name, colon and value, with blanks around each. */
  lemma {:induction false} FieldAccepted(f: Field, behind: Text, depth: nat, strtod: Strtod)
    requires FieldSound(f, strtod) && Fits(f.value.node, depth) && Delimits(behind)
    ensures ParseMember(SpellField(f, behind), depth, strtod) ==
      Ok(Entry(LiteralText(f.name), Meaning(f.value.node)), f.value.after + behind)
    decreases f, 2
  {
    hide ParseValue, ParseString, SkipSpace, Spell, Sound, Meaning, Fits, Delimits, LiteralSound, SpellLiteral;
    var after := f.value.after + behind;
    var value := Spell(f.value.node, after);
    var colon := [COLON] + (f.value.before + value);
    LiteralVisible(f.name, f.between + colon);
    SkipAhead(f.before, SpellLiteral(f.name, f.between + colon));
    LiteralRead(f.name, f.between + colon);
    SkipAhead(f.between, colon);
    assert colon[1..] == f.value.before + value;
    BehindBlank(f.value.after, behind);
    Alone(f.value.node, after, strtod);
    SpellVisible(f.value.node, after, strtod);
    SkipAhead(f.value.before, value);
    Accepted(f.value.node, after, depth, strtod);
  }

  lemma LiteralVisible(l: Literal, post: Text)
    ensures Visible(SpellLiteral(l, post)) && SpellLiteral(l, post)[0] == QUOTE
  {}

  lemma {:induction false} FieldsAccepted(fields: seq<Field>, post: Text, depth: nat, strtod: Strtod)
    requires fields != [] && FieldsGood(fields, depth, strtod)
    ensures ParseMembers(SpellFields(fields, post), depth, strtod) == Ok(FieldsMeaning(fields), post)
    decreases fields, 2
  {
    hide ParseMember, ParseMembers, SkipSpace, SpellFields, SpellField, FieldSound, Meaning, Fits, Delimits,
      LiteralText;
    var f, rest := fields[0], fields[1..];
    var behind := BehindField(rest, post);
    FieldsHead(fields, post);
    BehindFieldDelimits(rest, post);
    FieldAccepted(f, behind, depth, strtod);
    FieldBlank(f, strtod);
    BehindBlank(f.value.after, behind);
    MembersStep(SpellFields(fields, post), depth, strtod);
    if rest == [] {
      assert behind[1..] == post;
      assert FieldsMeaning(fields) == [Entry(LiteralText(f.name), Meaning(f.value.node))];
    } else {
      assert behind[1..] == SpellFields(rest, post);
      FieldsAccepted(rest, post, depth, strtod);
      assert FieldsMeaning(fields) == [Entry(LiteralText(f.name), Meaning(f.value.node))] + FieldsMeaning(rest);
    }
  }

  lemma FieldBlank(f: Field, strtod: Strtod)
    requires FieldSound(f, strtod)
    ensures Blank(f.value.after)
  {}

  // ----- what is accepted derives

  /** Skipping stops at something visible, and then it has passed over blanks alone. */
  lemma {:induction false} SkippedBlanks(s: Text) returns (ws: Text)
    requires Visible(SkipSpace(s))
    ensures Blank(ws) && s == ws + SkipSpace(s)
    decreases |s|
  {
    if s[0] > 32 {
      ws := [];
    } else {
      DropSpaceVisible(s);
      var rest := SkippedBlanks(s[1..]);
      ws := [s[0]] + rest;
    }
  }

  lemma DropSpaceVisible(s: Text)
    requires Visible(SkipSpace(s))
    ensures s != [] && SkipSpace(s) == DropSpace(s)
    ensures s[0] <= 32 ==> Visible(SkipSpace(s[1..])) && SkipSpace(s[1..]) == SkipSpace(s)
  {}

  lemma {:induction false} Derived(s: Text, depth: nat, strtod: Strtod) returns (n: Node)
    requires ParseValue(s, depth, strtod).Ok?
    ensures var r := ParseValue(s, depth, strtod);
      SoundBefore(n, r.rest, strtod) && s == Spell(n, r.rest) && Meaning(n) == r.value
    decreases |s|, 1
  {
    hide ParseArray, ParseObject, ParseString, ParseNumber, Ascii, LiteralSound, NumeralSound, SlotSound, FieldSound;
    WordsAre();
    if HasPrefix(s, NULL_TEXT) {
      n := NullWord;
    } else if HasPrefix(s, FALSE_TEXT) {
      n := FalseWord;
    } else if HasPrefix(s, TRUE_TEXT) {
      n := TrueWord;
    } else if s[0] == QUOTE {
      var l := LiteralOf(s);
      n := Quoted(l);
    } else if s[0] == MINUS || 48 <= s[0] <= 57 {
      n := NumeralDerived(s, strtod);
    } else if s[0] == OPEN_BRACKET {
      n := ListDerived(s, depth, strtod);
    } else {
      n := RecordDerived(s, depth, strtod);
    }
  }

  lemma NumeralDerived(s: Text, strtod: Strtod) returns (n: Node)
    requires s != [] && (s[0] == MINUS || 48 <= s[0] <= 57) && ParseNumber(s, strtod).Ok?
    ensures var r := ParseNumber(s, strtod);
      n.Numeral? && NumeralSound(n.text, n.n, r.rest, strtod) && s == n.text + r.rest && Number(n.n) == r.value
  {
    hide NumeralSound, ToInt;
    var taken := strtod(NumberText(s, 63)).0;
    n := Numeral(s[..taken], ParseNumber(s, strtod).value.n);
    assert s == s[..taken] + s[taken..];
    NumeralIs(s[..taken], n.n, s[taken..], strtod);
  }

  lemma {:induction false} ListDerived(s: Text, depth: nat, strtod: Strtod) returns (n: Node)
    requires s != [] && s[0] == OPEN_BRACKET && ParseArray(s, depth, strtod).Ok?
    ensures var r := ParseArray(s, depth, strtod);
      n.List? && Sound(n, strtod) && s == Spell(n, r.rest) && Meaning(n) == r.value
    decreases |s|, 0
  {
    hide ParseElements, SkipSpace, SlotSound, SpellItems;
    ArrayStep(s, depth, strtod);
    var t := SkipSpace(s[1..]);
    assert s == [OPEN_BRACKET] + s[1..];
    if t != [] && t[0] == CLOSE_BRACKET {
      var ws := SkippedBlanks(s[1..]);
      n := List(ws, []);
      assert t == [CLOSE_BRACKET] + t[1..];
      assert ItemsMeaning([]) == [];
    } else {
      ElementsSkipped(s[1..], depth + 1, strtod);
      var items := ItemsDerived(s[1..], depth + 1, strtod);
      n := List([], items);
    }
  }

  /** The pieces of an element that has been read. */
  lemma {:induction false} SlotDerived(s: Text, depth: nat, strtod: Strtod, u: Text) returns (slot: Slot)
    requires ParseValue(SkipSpace(s), depth, strtod).Ok? && |SkipSpace(s)| <= |s|
    requires u == SkipSpace(ParseValue(SkipSpace(s), depth, strtod).rest)
    requires u != [] && u[0] in {COMMA, CLOSE_BRACKET}
    ensures SlotSound(slot, strtod) && s == SpellSlot(slot, u)
    ensures Meaning(slot.node) == ParseValue(SkipSpace(s), depth, strtod).value
    decreases |s|, 2, 0
  {
    hide ParseValue, SkipSpace, Spell, Sound, SoundBefore, Meaning, Ends;
    var t := SkipSpace(s);
    var v := ParseValue(t, depth, strtod);
    var n := Derived(t, depth, strtod);
    SpellVisible(n, v.rest, strtod);
    var before := SkippedBlanks(s);
    var after := SkippedBlanks(v.rest);
    BlankEnds(after, u);
    Alone(n, v.rest, strtod);
    slot := Slot(before, n, after);
  }

  lemma {:induction false} ItemsDerived(s: Text, depth: nat, strtod: Strtod) returns (items: seq<Slot>)
    requires ParseElements(s, depth, strtod).Ok?
    ensures var r := ParseElements(s, depth, strtod);
      && items != [] && (forall i | 0 <= i < |items| :: SlotSound(items[i], strtod))
      && s == SpellItems(items, r.rest) && ItemsMeaning(items) == r.value
    decreases |s|, 2, 1
  {
    hide ParseValue, ParseElements, SkipSpace, SlotSound, SpellSlot, Meaning, SpellItems, ItemsMeaning;
    ElementsStep(s, depth, strtod);
    SkipShorter(s);
    var v := ParseValue(SkipSpace(s), depth, strtod);
    var u := SkipSpace(v.rest);
    var slot := SlotDerived(s, depth, strtod, u);
    var post := ParseElements(s, depth, strtod).rest;
    assert u == [u[0]] + u[1..];
    if u[0] == COMMA {
      SkipShorter(v.rest);
      var rest := ItemsDerived(u[1..], depth, strtod);
      items := [slot] + rest;
      ConsSlot(slot, rest, post, strtod);
    } else {
      items := [slot];
      ConsSlot(slot, [], post, strtod);
      assert [slot] + [] == items && [v.value] + [] == [v.value];
    }
  }

  lemma ConsSlot(slot: Slot, rest: seq<Slot>, post: Text, strtod: Strtod)
    requires SlotSound(slot, strtod) && forall i | 0 <= i < |rest| :: SlotSound(rest[i], strtod)
    ensures var items := [slot] + rest;
      && SpellItems(items, post) == SpellSlot(slot, BehindItem(rest, post))
      && ItemsMeaning(items) == [Meaning(slot.node)] + ItemsMeaning(rest) && ItemsMeaning([]) == []
      && forall i | 0 <= i < |items| :: SlotSound(items[i], strtod)
  {
    hide SlotSound, Meaning, SpellItems;
    var items := [slot] + rest;
    ItemsHead(items, post);
    assert items[1..] == rest;
    assert ItemsMeaning(items) == [Meaning(slot.node)] + ItemsMeaning(rest);
  }

  lemma SkipShorter(s: Text)
    ensures |SkipSpace(s)| <= |s|
  {}

  lemma BlankEnds(ws: Text, u: Text)
    requires Blank(ws) && u != [] && u[0] in {COMMA, COLON, CLOSE_BRACKET, CLOSE_BRACE}
    ensures Ends(ws + u)
  {}

  lemma {:induction false} RecordDerived(s: Text, depth: nat, strtod: Strtod) returns (n: Node)
    requires s != [] && s[0] == OPEN_BRACE && ParseObject(s, depth, strtod).Ok?
    ensures var r := ParseObject(s, depth, strtod);
      n.Record? && Sound(n, strtod) && s == Spell(n, r.rest) && Meaning(n) == r.value
    decreases |s|, 0
  {
    hide ParseMembers, SkipSpace, FieldSound, SpellFields;
    ObjectStep(s, depth, strtod);
    var t := SkipSpace(s[1..]);
    assert s == [OPEN_BRACE] + s[1..];
    if t != [] && t[0] == CLOSE_BRACE {
      var ws := SkippedBlanks(s[1..]);
      n := Record(ws, []);
      assert t == [CLOSE_BRACE] + t[1..];
      assert FieldsMeaning([]) == [];
    } else {
      MembersSkipped(s[1..], depth + 1, strtod);
      var fields := FieldsDerived(s[1..], depth + 1, strtod);
      n := Record([], fields);
    }
  }

  /** The pieces of a member that has been read. */
  lemma {:induction false} FieldDerived(s: Text, depth: nat, strtod: Strtod, u: Text) returns (f: Field)
    requires ParseMember(s, depth, strtod).Ok? && u == SkipSpace(ParseMember(s, depth, strtod).rest)
    requires u != [] && u[0] in {COMMA, CLOSE_BRACE}
    ensures var r := ParseMember(s, depth, strtod);
      FieldSound(f, strtod) && s == SpellField(f, u) && r.value == Entry(LiteralText(f.name), Meaning(f.value.node))
    decreases |s|, 2
  {
    hide ParseValue, ParseString, SkipSpace, Spell, Sound, SoundBefore, Meaning, Ends, LiteralSound, SpellLiteral;
    hide LiteralText;
    SkipShorter(s);
    var name := ParseString(SkipSpace(s));
    var l := LiteralOf(SkipSpace(s));
    LiteralVisible(l, name.rest);
    var before := SkippedBlanks(s);
    var colon := SkipSpace(name.rest);
    var between := SkippedBlanks(name.rest);
    SkipShorter(name.rest);
    SkipShorter(colon[1..]);
    var t := SkipSpace(colon[1..]);
    var v := ParseValue(t, depth, strtod);
    var n := Derived(t, depth, strtod);
    SpellVisible(n, v.rest, strtod);
    var first := SkippedBlanks(colon[1..]);
    var after := SkippedBlanks(v.rest);
    BlankEnds(after, u);
    Alone(n, v.rest, strtod);
    f := Field(before, l, between, Slot(first, n, after));
    assert colon == [COLON] + colon[1..];
  }

  lemma {:induction false} FieldsDerived(s: Text, depth: nat, strtod: Strtod) returns (fields: seq<Field>)
    requires ParseMembers(s, depth, strtod).Ok?
    ensures var r := ParseMembers(s, depth, strtod);
      && fields != [] && (forall i | 0 <= i < |fields| :: FieldSound(fields[i], strtod))
      && s == SpellFields(fields, r.rest) && FieldsMeaning(fields) == r.value
    decreases |s|, 3
  {
    hide ParseMember, ParseMembers, SkipSpace, FieldSound, SpellField, SpellFields, Meaning, LiteralText, FieldsMeaning;
    MembersStep(s, depth, strtod);
    var m := ParseMember(s, depth, strtod);
    var u := SkipSpace(m.rest);
    var f := FieldDerived(s, depth, strtod, u);
    var post := ParseMembers(s, depth, strtod).rest;
    assert u == [u[0]] + u[1..];
    if u[0] == COMMA {
      SkipShorter(m.rest);
      var rest := FieldsDerived(u[1..], depth, strtod);
      fields := [f] + rest;
      ConsField(f, rest, post, strtod);
    } else {
      fields := [f];
      ConsField(f, [], post, strtod);
      assert [f] + [] == fields && [m.value] + [] == [m.value];
    }
  }

  lemma ConsField(f: Field, rest: seq<Field>, post: Text, strtod: Strtod)
    requires FieldSound(f, strtod) && forall i | 0 <= i < |rest| :: FieldSound(rest[i], strtod)
    ensures var fields := [f] + rest;
      && SpellFields(fields, post) == SpellField(f, BehindField(rest, post))
      && FieldsMeaning(fields) == [Entry(LiteralText(f.name), Meaning(f.value.node))] + FieldsMeaning(rest)
      && FieldsMeaning([]) == []
      && forall i | 0 <= i < |fields| :: FieldSound(fields[i], strtod)
  {
    hide FieldSound, SpellField, Meaning, LiteralText, SpellFields, FieldsMeaning;
    var fields := [f] + rest;
    FieldsHead(fields, post);
    assert fields[1..] == rest;
    FieldsMeaningHead(fields);
  }

  lemma FieldsMeaningHead(fields: seq<Field>)
    requires fields != []
    ensures FieldsMeaning(fields) ==
      [Entry(LiteralText(fields[0].name), Meaning(fields[0].value.node))] + FieldsMeaning(fields[1..])
    ensures FieldsMeaning([]) == []
  {
    hide Meaning, LiteralText;
    var first := Entry(LiteralText(fields[0].name), Meaning(fields[0].value.node));
    assert FieldsMeaning(fields) == [first] + FieldsMeaning(fields[1..]);
  }
}
