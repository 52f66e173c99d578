/**
 The parser as the program runs it: an offset that moves through the input, a depth
 counter, and an allocator that may refuse. Whatever is refused, a failing call gives
 back everything it has taken.
 */
module ParseLoops {
  import opened Basics
  import opened Strings
  import opened Sorting
  import opened Json
  import opened Memory
  import opened Printing
  import opened UnicodeLoops
  import opened Parsing
  import opened ParsingProofs
  import opened StringSizing
  import opened Items
  import opened Grammar
  import opened GrammarResults

  class ParseBuffer {
    const content: Text
    var offset: nat
    var depth: nat
    const hooks: Allocator
    const strtod: Strtod

    constructor (content: Text, hooks: Allocator, strtod: Strtod)
      ensures this.content == content && this.hooks == hooks && this.strtod == strtod && offset == 0 && depth == 0
    {
      this.content, this.hooks, this.strtod, offset, depth := content, hooks, strtod, 0, 0;
    }

    predicate Valid()
      reads this
    {
      offset <= |content| && depth <= NESTING_LIMIT
    }

    function Rest(): Text
      requires Valid()
      reads this
    {
      content[offset..]
    }

    /** The failing call of a specification function left the offset where it noticed the failure. */
    ghost predicate StoppedAt(left: nat)
      reads this
    {
      offset == |content| - left
    }

    /** `buffer_skip_whitespace`. */
    method SkipWhitespace()
      requires Valid()
      modifies this`offset
      ensures Valid() && Rest() == SkipSpace(old(Rest()))
    {
      if offset >= |content| {
        return;
      }
      while offset < |content| && content[offset] <= 32
        invariant old(offset) <= offset <= |content|
        invariant DropSpace(content[offset..]) == DropSpace(old(Rest()))
      {
        assert content[offset..][1..] == content[offset + 1..];
        offset := offset + 1;
      }
      if offset == |content| {
        offset := offset - 1;
        assert old(Rest())[|old(Rest())| - 1..] == content[offset..];
      }
    }

    predicate CanRead(p: Text)
      requires Valid()
      reads this
    {
      offset + |p| <= |content| && content[offset..offset + |p|] == p
    }

    lemma CanReadPrefix(p: Text)
      requires Valid()
      ensures CanRead(p) <==> HasPrefix(Rest(), p)
    {
      if offset + |p| <= |content| {
        assert content[offset..offset + |p|] == content[offset..][..|p|];
      }
    }

    /** The copying loop of `parse_number`. */
    method CopyNumber() returns (number: Text)
      requires Valid()
      ensures number == NumberText(Rest(), 63)
    {
      hide NumberText, NumberByte;
      number := [];
      var rest := Rest();
      NumberTextStep(rest, 63);
      while |number| < 63 && rest != [] && NumberByte(rest[0])
        invariant |number| <= 63
        invariant number + NumberText(rest, 63 - |number|) == NumberText(Rest(), 63)
        decreases |rest|
      {
        NumberTextStep(rest, 63 - |number|);
        number, rest := number + [rest[0]], rest[1..];
      }
      NumberTextStep(rest, 63 - |number|);
    }

    /** `parse_number`. */
    method ParseNumber() returns (ok: bool, n: int)
      requires Valid()
      modifies this`offset
      ensures Valid()
      ensures ok ==> Parsing.ParseNumber(old(Rest()), strtod) == Ok(Number(n), Rest())
      ensures !ok ==>
        Parsing.ParseNumber(old(Rest()), strtod).Fail? && StoppedAt(Parsing.ParseNumber(old(Rest()), strtod).left)
    {
      var number := CopyNumber();
      var (taken, value) := strtod(number);
      if taken == 0 {
        return false, 0;
      }
      assert Rest()[taken..] == content[offset + taken..];
      offset := offset + taken;
      return true, ToInt(value);
    }

    /** `parse_string`: the text is what the block holds before its first zero. */
    method ParseString() returns (ok: bool, s: Option<Owned>)
      requires Valid() && Rest() != []
      modifies this`offset, hooks
      ensures Valid() && hooks.refusals >= old(hooks.refusals)
      ensures ok ==>
        s.Some? && Parsing.ParseString(old(Rest())) == Ok(s.value.text, Rest()) && hooks.refusals == old(hooks.refusals)
      ensures ok ==> Gained(old(hooks.live), hooks.live, [s.value.block])
      ensures ok ==> Holds(s.value) && fresh(s.value.block)
      ensures !ok ==> hooks.live == old(hooks.live)
      ensures !ok && hooks.refusals == old(hooks.refusals) ==>
        Parsing.ParseString(old(Rest())).Fail? && StoppedAt(Parsing.ParseString(old(Rest())).left)
    {
      hide Decode, Tokens, ClosingQuote;
      ok, s := false, None;
      if content[offset] != QUOTE {
        offset := offset + 1;
        return;
      }
      var literal := content[offset + 1..];
      assert literal == Rest()[1..];
      var found, end, skipped := FindQuote(literal);
      if !found {
        offset := offset + 1;
        return;
      }
      var allocationLength := end + 1 - skipped;
      var output := hooks.Allocate(allocationLength + 1);
      if output == null {
        offset := offset + 1;
        return;
      }
      var decoded, n, left := DecodeLiteral(literal, end, output);
      if !decoded {
        hooks.Release(output);
        offset := |content| - left;
        return;
      }
      ghost var bytes := output[..n];
      output[n] := 0;
      assert output[..n] == bytes;
      Terminated(output[..], n);
      SetOfOne(output);
      ok, s := true, Some(Owned(output, CString(output[..])));
      assert Rest()[end + 2..] == content[offset + end + 2..];
      offset := offset + end + 2;
    }

    /** What `parse_array` and `parse_object` do with the items they have when something fails. */
    method GiveBack(items: seq<Item>, ghost before: set<object>)
      requires Gained(before, hooks.live, ListBlocks(items))
      modifies hooks
      ensures hooks.live == before && hooks.refusals == old(hooks.refusals)
    {
      GainedIsLive(before, hooks.live, ListBlocks(items));
      Delete(items, hooks);
    }

    /** `parse_value`. */
    method ParseValue() returns (ok: bool, body: Body)
      requires Valid() && !Parsing.ParseValue(Rest(), depth, strtod).Overrun?
      modifies this`offset, this`depth, hooks
      ensures Valid() && hooks.refusals >= old(hooks.refusals)
      ensures ok ==> Parsing.ParseValue(old(Rest()), old(depth), strtod) == Ok(BodyTree(body), Rest())
      ensures ok ==> depth == old(depth) && hooks.refusals == old(hooks.refusals)
      ensures ok ==> Gained(old(hooks.live), hooks.live, BodyBlocks(body)) && AllHold(BodyTexts(body))
      ensures !ok ==> hooks.live == old(hooks.live)
      ensures !ok && hooks.refusals == old(hooks.refusals) ==>
        var r := Parsing.ParseValue(old(Rest()), old(depth), strtod);
        r.Fail? && StoppedAt(r.left)
      decreases |content| - offset, 4
    {
      hide Gained, Parsing.ParseArray, Parsing.ParseObject, Parsing.ParseString, Parsing.ParseNumber, ListBlocks,
        ListTexts;
      ok, body := false, Nothing;
      GainedNothing(hooks.live);
      CanReadPrefix(NULL_TEXT);
      CanReadPrefix(FALSE_TEXT);
      CanReadPrefix(TRUE_TEXT);
      if CanRead(NULL_TEXT) {
        assert Rest()[4..] == content[offset + 4..];
        offset := offset + 4;
        return true, Leaf(Null);
      }
      if CanRead(FALSE_TEXT) {
        assert Rest()[5..] == content[offset + 5..];
        offset := offset + 5;
        return true, Leaf(False);
      }
      if CanRead(TRUE_TEXT) {
        assert Rest()[4..] == content[offset + 4..];
        offset := offset + 4;
        return true, Leaf(True);
      }
      if offset < |content| && content[offset] == QUOTE {
        var s;
        ok, s := ParseString();
        if ok {
          body := Str(s.value);
          AllHoldOne(s.value);
        }
      } else if offset < |content| && (content[offset] == MINUS || 48 <= content[offset] <= 57) {
        var n;
        ok, n := ParseNumber();
        body := Leaf(Number(n));
      } else if offset < |content| && content[offset] == OPEN_BRACKET {
        ok, body := ParseArray();
      } else if offset < |content| && content[offset] == OPEN_BRACE {
        ok, body := ParseObject();
      }
    }

    /** The part of both loops that parses the value of a new item, which is the last of the list. */
    method ParseInto(head: seq<Item>, newItem: Item, ghost before: set<object>) returns (ok: bool, items: seq<Item>)
      requires Valid() && !Parsing.ParseValue(SkipSpace(Rest()), depth, strtod).Overrun?
      requires Gained(before, hooks.live, ListBlocks(head + [newItem])) && newItem.body.Nothing? && !newItem.reference
      requires AllHold(ListTexts(head)) && AllHold(NameTexts(newItem))
      modifies this`offset, this`depth, hooks
      ensures Valid() && hooks.refusals >= old(hooks.refusals)
      ensures ok ==> var v := Parsing.ParseValue(SkipSpace(old(Rest())), old(depth), strtod);
        && v.Ok? && Rest() == SkipSpace(v.rest)
        && TreeItems(items) == TreeItems(head) + [v.value]
        && TreeMembers(items) == TreeMembers(head) + [Entry(NameText(newItem), v.value)]
      ensures ok ==> depth == old(depth) && hooks.refusals == old(hooks.refusals)
      ensures ok ==> Gained(before, hooks.live, ListBlocks(items)) && AllHold(ListTexts(items))
      ensures !ok ==> hooks.live == before
      ensures !ok && hooks.refusals == old(hooks.refusals) ==>
        var v := Parsing.ParseValue(SkipSpace(old(Rest())), old(depth), strtod); v.Fail? && StoppedAt(v.left)
      decreases |content| - offset, 5
    {
      hide Gained, Parsing.ParseValue, SkipSpace, ListBlocks, ListTexts, TreeItems, TreeMembers, NameTexts, BodyTexts;
      ghost var held, texts, nameTexts := hooks.live, ListTexts(head), NameTexts(newItem);
      assert AllHold(texts) && AllHold(nameTexts);
      SkipWhitespace();
      assert AllHold(texts) && AllHold(nameTexts);
      var body;
      ok, body := ParseValue();
      if !ok {
        GiveBack(head + [newItem], before);
        return ok, head;
      }
      assert AllHold(texts) && AllHold(nameTexts);
      var whole := newItem.(body := body);
      GainedBody(before, held, hooks.live, head, newItem, body);
      SameName(newItem, body);
      MoreTexts(head, whole);
      TreesAppend(head, whole);
      items := head + [whole];
      ghost var all := ListTexts(items);
      assert AllHold(all);
      SkipWhitespace();
      assert AllHold(all);
    }

    /** One turn of the loop of `parse_array`, from the byte in front of the element. */
    method ParseElement(head: seq<Item>, ghost before: set<object>) returns (ok: bool, items: seq<Item>)
      requires Valid() && offset < |content|
      requires !Parsing.ParseValue(SkipSpace(content[offset + 1..]), depth, strtod).Overrun?
      requires Gained(before, hooks.live, ListBlocks(head)) && AllHold(ListTexts(head))
      modifies this`offset, this`depth, hooks
      ensures Valid() && hooks.refusals >= old(hooks.refusals)
      ensures ok ==> var v := Parsing.ParseValue(SkipSpace(old(content[offset + 1..])), old(depth), strtod);
        v.Ok? && TreeItems(items) == TreeItems(head) + [v.value] && Rest() == SkipSpace(v.rest)
      ensures ok ==> depth == old(depth) && hooks.refusals == old(hooks.refusals)
      ensures ok ==> Gained(before, hooks.live, ListBlocks(items)) && AllHold(ListTexts(items))
      ensures !ok ==> hooks.live == before
      ensures !ok && hooks.refusals == old(hooks.refusals) ==>
        var v := Parsing.ParseValue(SkipSpace(old(content[offset + 1..])), old(depth), strtod);
        v.Fail? && StoppedAt(v.left)
      decreases |content| - offset, 1
    {
      hide Gained, Parsing.ParseValue, SkipSpace, ListBlocks, ListTexts, TreeItems, TreeMembers;
      ok, items := false, head;
      ghost var middle, texts := hooks.live, ListTexts(head);
      assert AllHold(texts);
      var node := hooks.Allocate(ITEM_SIZE);
      if node == null {
        GiveBack(head, before);
        return;
      }
      assert AllHold(texts);
      var newItem := Item(node, None, Nothing, false, false);
      GainedNew(before, middle, hooks.live, head, newItem);
      offset := offset + 1;
      assert AllHold(texts);
      ok, items := ParseInto(head, newItem, before);
    }

    /** The loop of `parse_array` and the test behind it, from the byte in front of the first one. */
    method ParseElementsLoop(ghost before: set<object>) returns (ok: bool, items: seq<Item>)
      requires Valid() && offset < |content| && hooks.live == before
      requires !ParseElements(content[offset + 1..], depth, strtod).Overrun?
      modifies this`offset, this`depth, hooks
      ensures Valid() && hooks.refusals >= old(hooks.refusals)
      ensures ok ==> depth == old(depth) && hooks.refusals == old(hooks.refusals)
      ensures ok ==> Gained(before, hooks.live, ListBlocks(items)) && AllHold(ListTexts(items))
      ensures ok ==>
        offset < |content| &&
          ParseElements(old(content[offset + 1..]), depth, strtod) == Ok(TreeItems(items), content[offset + 1..])
      ensures !ok ==> hooks.live == before
      ensures !ok && hooks.refusals == old(hooks.refusals) ==>
        var r := ParseElements(old(content[offset + 1..]), old(depth), strtod); r.Fail? && StoppedAt(r.left)
      decreases |content| - offset, 2
    {
      hide Gained, ParseElements, Parsing.ParseValue, SkipSpace, ListBlocks, ListTexts, TreeItems, TreeMembers;
      items := [];
      ListBlocksNone();
      GainedNothing(before);
      var more := true;
      PrependNone(ParseElements(content[offset + 1..], depth, strtod));
      while more
        invariant Valid() && depth == old(depth) && hooks.refusals == old(hooks.refusals) && offset >= old(offset)
        invariant Gained(before, hooks.live, ListBlocks(items)) && AllHold(ListTexts(items))
        invariant more ==> offset < |content|
        invariant ParseElements(old(content[offset + 1..]), depth, strtod)
          == if more then PrependAll(TreeItems(items), ParseElements(content[offset + 1..], depth, strtod))
             else EndOfList(TreeItems(items), Rest(), CLOSE_BRACKET)
        decreases if more then |content| - offset + 1 else 0
      {
        ghost var s := content[offset + 1..];
        ghost var done := TreeItems(items);
        ElementsStep(s, depth, strtod, done);
        ok, items := ParseElement(items, before);
        if !ok {
          return;
        }
        more := offset < |content| && content[offset] == COMMA;
        assert more ==> Rest()[1..] == content[offset + 1..];
      }
      if offset >= |content| || content[offset] != CLOSE_BRACKET {
        GiveBack(items, before);
        return false, items;
      }
      assert Rest()[1..] == content[offset + 1..];
      ok := true;
    }

    /** The first lines of `parse_array` and `parse_object`: how deep it is, and whether there is anything in it. */
    method EnterList(close: Byte) returns (ok: bool, empty: bool)
      requires Valid() && Rest() != []
      modifies this`offset, this`depth
      ensures Valid()
      ensures var t := SkipSpace(old(Rest())[1..]); ok <==> old(depth) < NESTING_LIMIT && t != []
      ensures !ok ==> StoppedAt(if old(depth) >= NESTING_LIMIT then |old(Rest())| else 1)
      ensures ok ==> depth == old(depth) + 1 && offset >= old(offset)
      ensures ok ==> var t := SkipSpace(old(Rest())[1..]);
        if empty then Rest() == t && t[0] == close
        else offset < |content| && content[offset + 1..] == t && t[0] != close
    {
      hide SkipSpace;
      ok, empty := false, false;
      if depth >= NESTING_LIMIT {
        return;
      }
      depth := depth + 1;
      assert Rest()[1..] == content[offset + 1..];
      offset := offset + 1;
      SkipWhitespace();
      if offset < |content| && content[offset] == close {
        return true, true;
      }
      if offset >= |content| {
        offset := offset - 1;
        return;
      }
      offset := offset - 1;
      ok := true;
    }

    /** `parse_array`. */
    method ParseArray() returns (ok: bool, body: Body)
      requires Valid() && Rest() != [] && Rest()[0] == OPEN_BRACKET
      requires !Parsing.ParseArray(Rest(), depth, strtod).Overrun?
      modifies this`offset, this`depth, hooks
      ensures Valid() && hooks.refusals >= old(hooks.refusals)
      ensures ok ==> Parsing.ParseArray(old(Rest()), old(depth), strtod) == Ok(BodyTree(body), Rest())
      ensures ok ==> depth == old(depth) && hooks.refusals == old(hooks.refusals)
      ensures ok ==> Gained(old(hooks.live), hooks.live, BodyBlocks(body)) && AllHold(BodyTexts(body))
      ensures !ok ==> hooks.live == old(hooks.live)
      ensures !ok && hooks.refusals == old(hooks.refusals) ==>
        var r := Parsing.ParseArray(old(Rest()), old(depth), strtod);
        r.Fail? && StoppedAt(r.left)
      decreases |content| - offset, 3
    {
      hide Gained, Parsing.ParseArray, Parsing.ParseElements, SkipSpace, ListBlocks, ListTexts, TreeItems, TreeMembers;
      ok, body := false, Nothing;
      ArrayStep(Rest(), depth, strtod);
      GainedNothing(hooks.live);
      ListBlocksNone();
      var empty;
      ok, empty := EnterList(CLOSE_BRACKET);
      if !ok {
        return;
      }
      var items: seq<Item> := [];
      if empty {
        assert Rest()[1..] == content[offset + 1..];
      } else {
        ok, items := ParseElementsLoop(hooks.live);
        if !ok {
          return;
        }
      }
      depth := depth - 1;
      body := Children(false, items);
      offset := offset + 1;
    }

    /** The name and the colon in `parse_object`. The name is parsed as a text and moved to its place afterwards. */
    method ParseNameAndColon(head: seq<Item>, newItem: Item, ghost before: set<object>) returns (ok: bool, named: Item)
      requires Valid() && Rest() != [] && newItem.name.None? && newItem.body.Nothing? && !newItem.constName
      requires Gained(before, hooks.live, ListBlocks(head + [newItem]))
      modifies this`offset, hooks
      ensures Valid() && hooks.refusals >= old(hooks.refusals)
      ensures ok ==>
        var n := ParseName(old(Rest())); n.Ok? && named.name.Some? && NameText(named) == n.value && Rest() == n.rest
      ensures ok ==> AllHold(NameTexts(named))
      ensures ok ==> named.node == newItem.node && named.body.Nothing? && named.reference == newItem.reference
      ensures ok ==> hooks.refusals == old(hooks.refusals) && Gained(before, hooks.live, ListBlocks(head + [named]))
      ensures !ok ==> hooks.live == before
      ensures !ok && hooks.refusals == old(hooks.refusals) ==>
        ParseName(old(Rest())).Fail? && StoppedAt(ParseName(old(Rest())).left)
    {
      hide Gained, Parsing.ParseString, SkipSpace, ListBlocks;
      named := newItem;
      ghost var held := hooks.live;
      SkipWhitespace();
      var name;
      ok, name := ParseString();
      if !ok {
        GiveBack(head + [newItem], before);
        return;
      }
      GainedName(before, held, hooks.live, head, newItem, name.value);
      named := newItem.(name := name);
      AllHoldOne(name.value);
      SkipWhitespace();
      if offset >= |content| || content[offset] != COLON {
        GiveBack(head + [named], before);
        ok := false;
        return;
      }
      assert Rest()[1..] == content[offset + 1..];
      offset := offset + 1;
    }

    /** One turn of the loop of `parse_object`, from the byte in front of the name. */
    method ParseOneMember(head: seq<Item>, ghost before: set<object>) returns (ok: bool, items: seq<Item>)
      requires Valid() && offset < |content| && !ParseMember(content[offset + 1..], depth, strtod).Overrun?
      requires Gained(before, hooks.live, ListBlocks(head)) && AllHold(ListTexts(head))
      modifies this`offset, this`depth, hooks
      ensures Valid() && hooks.refusals >= old(hooks.refusals)
      ensures ok ==> var m := ParseMember(old(content[offset + 1..]), old(depth), strtod);
        m.Ok? && TreeMembers(items) == TreeMembers(head) + [m.value] && Rest() == SkipSpace(m.rest)
      ensures ok ==> depth == old(depth) && hooks.refusals == old(hooks.refusals)
      ensures ok ==> Gained(before, hooks.live, ListBlocks(items)) && AllHold(ListTexts(items))
      ensures !ok ==> hooks.live == before
      ensures !ok && hooks.refusals == old(hooks.refusals) ==>
        var m := ParseMember(old(content[offset + 1..]), old(depth), strtod);
        m.Fail? && StoppedAt(m.left)
      decreases |content| - offset, 1
    {
      hide Gained, Parsing.ParseValue, ParseName, SkipSpace, ListBlocks, ListTexts, TreeItems, TreeMembers;
      ok, items := false, head;
      ghost var middle, texts := hooks.live, ListTexts(head);
      assert AllHold(texts);
      var node := hooks.Allocate(ITEM_SIZE);
      if node == null {
        GiveBack(head, before);
        return;
      }
      var newItem := Item(node, None, Nothing, false, false);
      GainedNew(before, middle, hooks.live, head, newItem);
      offset := offset + 1;
      ok, newItem := ParseNameAndColon(head, newItem, before);
      if !ok {
        return;
      }
      assert AllHold(texts);
      ok, items := ParseInto(head, newItem, before);
    }

    /** The loop of `parse_object` and the test behind it, from the byte in front of the first one. */
    method ParseMembersLoop(ghost before: set<object>) returns (ok: bool, items: seq<Item>)
      requires Valid() && offset < |content| && hooks.live == before
      requires !ParseMembers(content[offset + 1..], depth, strtod).Overrun?
      modifies this`offset, this`depth, hooks
      ensures Valid() && hooks.refusals >= old(hooks.refusals)
      ensures ok ==> depth == old(depth) && hooks.refusals == old(hooks.refusals)
      ensures ok ==> Gained(before, hooks.live, ListBlocks(items)) && AllHold(ListTexts(items))
      ensures ok ==>
        offset < |content| &&
          ParseMembers(old(content[offset + 1..]), depth, strtod) == Ok(TreeMembers(items), content[offset + 1..])
      ensures !ok ==> hooks.live == before
      ensures !ok && hooks.refusals == old(hooks.refusals) ==>
        var r := ParseMembers(old(content[offset + 1..]), old(depth), strtod); r.Fail? && StoppedAt(r.left)
      decreases |content| - offset, 2
    {
      hide Gained, ParseMembers, ParseMember, SkipSpace, ListBlocks, ListTexts, TreeItems, TreeMembers;
      items := [];
      ListBlocksNone();
      GainedNothing(before);
      var more := true;
      PrependNone(ParseMembers(content[offset + 1..], depth, strtod));
      while more
        invariant Valid() && depth == old(depth) && hooks.refusals == old(hooks.refusals) && offset >= old(offset)
        invariant Gained(before, hooks.live, ListBlocks(items)) && AllHold(ListTexts(items))
        invariant more ==> offset < |content|
        invariant ParseMembers(old(content[offset + 1..]), depth, strtod)
          == if more then PrependAll(TreeMembers(items), ParseMembers(content[offset + 1..], depth, strtod))
             else EndOfList(TreeMembers(items), Rest(), CLOSE_BRACE)
        decreases if more then |content| - offset + 1 else 0
      {
        ghost var s := content[offset + 1..];
        ghost var done := TreeMembers(items);
        MembersStep(s, depth, strtod, done);
        ok, items := ParseOneMember(items, before);
        if !ok {
          return;
        }
        more := offset < |content| && content[offset] == COMMA;
        assert more ==> Rest()[1..] == content[offset + 1..];
      }
      if offset >= |content| || content[offset] != CLOSE_BRACE {
        GiveBack(items, before);
        return false, items;
      }
      assert Rest()[1..] == content[offset + 1..];
      ok := true;
    }

    /** `parse_object`. */
    method ParseObject() returns (ok: bool, body: Body)
      requires Valid() && Rest() != [] && Rest()[0] == OPEN_BRACE
      requires !Parsing.ParseObject(Rest(), depth, strtod).Overrun?
      modifies this`offset, this`depth, hooks
      ensures Valid() && hooks.refusals >= old(hooks.refusals)
      ensures ok ==> Parsing.ParseObject(old(Rest()), old(depth), strtod) == Ok(BodyTree(body), Rest())
      ensures ok ==> depth == old(depth) && hooks.refusals == old(hooks.refusals)
      ensures ok ==> Gained(old(hooks.live), hooks.live, BodyBlocks(body)) && AllHold(BodyTexts(body))
      ensures !ok ==> hooks.live == old(hooks.live)
      ensures !ok && hooks.refusals == old(hooks.refusals) ==>
        var r := Parsing.ParseObject(old(Rest()), old(depth), strtod);
        r.Fail? && StoppedAt(r.left)
      decreases |content| - offset, 3
    {
      hide Gained, Parsing.ParseObject, Parsing.ParseMembers, SkipSpace, ListBlocks, ListTexts, TreeItems, TreeMembers;
      ok, body := false, Nothing;
      ObjectStep(Rest(), depth, strtod);
      GainedNothing(hooks.live);
      ListBlocksNone();
      var empty;
      ok, empty := EnterList(CLOSE_BRACE);
      if !ok {
        return;
      }
      var items: seq<Item> := [];
      if empty {
        assert Rest()[1..] == content[offset + 1..];
      } else {
        ok, items := ParseMembersLoop(hooks.live);
        if !ok {
          return;
        }
      }
      depth := depth - 1;
      body := Children(true, items);
      offset := offset + 1;
    }
  }

  /** Bytes behind a zero do not belong to the text. */
  lemma Terminated(s: Text, n: nat)
    requires n < |s| && s[n] == 0
    ensures CString(s) == CString(s[..n])
    ensures var t := CString(s); |t| < |s| && s[..|t|] == t && s[|t|] == 0 && NulFree(t)
  {
    CStringCut(s[..n], s[n..]);
    assert s == s[..n] + s[n..];
    CStringNulFree(s);
    CStringInside(s, n);
  }

  lemma {:induction false} CStringInside(s: Text, n: nat)
    requires n < |s| && s[n] == 0
    ensures var t := CString(s); |t| < |s| && s[..|t|] == t && s[|t|] == 0
  {
    if s[0] != 0 {
      CStringInside(s[1..], n - 1);
      var t := CString(s[1..]);
      assert s[..|t| + 1] == [s[0]] + s[1..][..|t|] && s[|t| + 1] == s[1..][|t|];
    }
  }

  lemma {:induction false} CStringCut(a: Text, b: Text)
    requires b != [] && b[0] == 0
    ensures CString(a + b) == CString(a)
  {
    if a == [] {
      assert a + b == b;
    } else {
      CStringCut(a[1..], b);
      assert (a + b)[1..] == a[1..] + b;
    }
  }

  lemma GainedNew(before: set<object>, middle: set<object>, live: set<object>, head: seq<Item>, item: Item)
    requires Gained(before, middle, ListBlocks(head)) && live == middle + {item.node} && item.node !in middle
    requires item.name.None? && item.body.Nothing?
    ensures Gained(before, live, ListBlocks(head + [item]))
  {
    ListBlocksAppend(head, item);
    SetOfOne(item.node);
    assert Blocks(item) == [item.node];
    GainedConcat(before, middle, live, ListBlocks(head), Blocks(item));
  }

  lemma GainedBody(before: set<object>, middle: set<object>, live: set<object>, head: seq<Item>, item: Item, body: Body)
    requires Gained(before, middle, ListBlocks(head + [item])) && Gained(middle, live, BodyBlocks(body))
    requires item.body.Nothing? && !item.reference
    ensures Gained(before, live, ListBlocks(head + [item.(body := body)]))
  {
    hide Gained, ListBlocks, ListTexts;
    var name := if item.name.Some? && !item.constName then [item.name.value.block] else [];
    ListBlocksAppend(head, item);
    ListBlocksAppend(head, item.(body := body));
    assert Blocks(item) == name + [item.node] && Blocks(item.(body := body)) == BodyBlocks(body) + (name + [item.node]);
    GainedInsert(before, middle, live, ListBlocks(head), BodyBlocks(body), name + [item.node]);
    assert ListBlocks(head) + BodyBlocks(body) + (name + [item.node]) == ListBlocks(head) +
      (BodyBlocks(body) + (name + [item.node]));
  }

  lemma GainedName(before: set<object>, middle: set<object>, live: set<object>, head: seq<Item>, item: Item,
      name: Owned)
    requires Gained(before, middle, ListBlocks(head + [item])) && Gained(middle, live, [name.block])
    requires item.body.Nothing? && item.name.None? && !item.constName
    ensures Gained(before, live, ListBlocks(head + [item.(name := Some(name))]))
  {
    hide Gained, ListBlocks, ListTexts;
    ListBlocksAppend(head, item);
    ListBlocksAppend(head, item.(name := Some(name)));
    assert Blocks(item) == [item.node] && Blocks(item.(name := Some(name))) == [name.block] + [item.node];
    GainedInsert(before, middle, live, ListBlocks(head), [name.block], [item.node]);
    assert ListBlocks(head) + [name.block] + [item.node] == ListBlocks(head) + ([name.block] + [item.node]);
  }

  lemma SameName(item: Item, body: Body)
    ensures NameText(item.(body := body)) == NameText(item) && NameTexts(item.(body := body)) == NameTexts(item)
  {}

  lemma RootTexts(item: Item)
    requires AllHold(BodyTexts(item.body)) && item.name.None?
    ensures AllHold(Texts(item))
  {
    hide BodyTexts;
    AllHoldConcat(BodyTexts(item.body), NameTexts(item));
  }

  lemma MoreTexts(head: seq<Item>, item: Item)
    requires AllHold(ListTexts(head)) && AllHold(BodyTexts(item.body)) && AllHold(NameTexts(item))
    ensures AllHold(ListTexts(head + [item]))
  {
    hide ListTexts;
    ListBlocksAppend(head, item);
    AllHoldConcat(ListTexts(head), Texts(item));
    AllHoldConcat(BodyTexts(item.body), NameTexts(item));
  }

  lemma GainedNothing(live: set<object>)
    ensures Gained(live, live, [])
  {}

  /** The result of a loop that starts with some values already there. */
  function PrependAll<T>(done: seq<T>, r: Outcome<seq<T>>): Outcome<seq<T>> {
    if r.Ok? then Ok(done + r.value, r.rest) else r
  }

  /** The result where the loop has ended in front of t. */
  function EndOfList<T>(done: seq<T>, t: Text, close: Byte): Outcome<seq<T>> {
    if t != [] && t[0] == close then Ok(done, t[1..]) else Fail(|t|)
  }

  lemma PrependNone<T>(r: Outcome<seq<T>>)
    ensures PrependAll([], r) == r
  {
    assert r.Ok? ==> [] + r.value == r.value;
  }

  lemma ElementsStep(s: Text, depth: nat, strtod: Strtod, done: seq<Json>)
    ensures var v := Parsing.ParseValue(SkipSpace(s), depth, strtod);
      && (v.Fail? ==> PrependAll(done, ParseElements(s, depth, strtod)) == Fail(v.left))
      && (v.Overrun? ==> PrependAll(done, ParseElements(s, depth, strtod)) == Overrun)
      && (v.Ok? ==>
        var t := SkipSpace(v.rest);
        PrependAll(done, ParseElements(s, depth, strtod))
        == if t != [] && t[0] == COMMA then PrependAll(done + [v.value], ParseElements(t[1..], depth, strtod))
           else EndOfList(done + [v.value], t, CLOSE_BRACKET))
  {
    var v := Parsing.ParseValue(SkipSpace(s), depth, strtod);
    if v.Ok? && SkipSpace(v.rest) != [] && SkipSpace(v.rest)[0] == COMMA {
      var more := ParseElements(SkipSpace(v.rest)[1..], depth, strtod);
      assert more.Ok? ==> done + ([v.value] + more.value) == done + [v.value] + more.value;
    }
  }

  lemma MembersStep(s: Text, depth: nat, strtod: Strtod, done: seq<Member>)
    ensures var m := ParseMember(s, depth, strtod);
      && (m.Fail? ==> PrependAll(done, ParseMembers(s, depth, strtod)) == Fail(m.left))
      && (m.Overrun? ==> PrependAll(done, ParseMembers(s, depth, strtod)) == Overrun)
      && (m.Ok? ==>
        var t := SkipSpace(m.rest);
        PrependAll(done, ParseMembers(s, depth, strtod))
        == if t != [] && t[0] == COMMA then PrependAll(done + [m.value], ParseMembers(t[1..], depth, strtod))
           else EndOfList(done + [m.value], t, CLOSE_BRACE))
  {
    hide ParseMember, SkipSpace;
    var m := ParseMember(s, depth, strtod);
    if m.Ok? && SkipSpace(m.rest) != [] && SkipSpace(m.rest)[0] == COMMA {
      var more := ParseMembers(SkipSpace(m.rest)[1..], depth, strtod);
      assert more.Ok? ==> done + ([m.value] + more.value) == done + [m.value] + more.value;
    }
  }

  /** The sizing pass of `parse_string`, from behind the opening quote. */
  method FindQuote(literal: Text) returns (ok: bool, end: nat, skipped: nat)
    ensures ok <==> ClosingQuote(literal) < |literal|
    ensures ok ==> end == ClosingQuote(literal) && end - skipped == Tokens(literal)
  {
    hide ClosingQuote, Tokens;
    end, skipped := 0, 0;
    var rest := literal;
    while rest != [] && rest[0] != QUOTE
      invariant end + |rest| == |literal|
      invariant end + ClosingQuote(rest) == ClosingQuote(literal)
      invariant end - skipped + Tokens(rest) == Tokens(literal)
      decreases |rest|
    {
      SizingStep(rest);
      if rest[0] == BACKSLASH {
        if |rest| == 1 {
          return false, 0, 0;
        }
        skipped := skipped + 1;
        end, rest := end + 2, rest[2..];
      } else {
        end, rest := end + 1, rest[1..];
      }
    }
    SizingEnd(rest);
    ok := rest != [];
  }

  /** One escape sequence of the decoding pass; 0 stands for failure. */
  method DecodeSequence(input: Text, end: nat, output: array<Byte>, at: nat) returns (sequenceLength: nat, n: nat)
    requires 0 < end < |input| && input[0] == BACKSLASH && at <= output.Length
    requires Sequence(input, end).Some? ==> at + |Sequence(input, end).value.bytes| <= output.Length
    modifies output
    ensures sequenceLength == 0 <==> Sequence(input, end).None?
    ensures sequenceLength != 0 ==> var u := Sequence(input, end).value;
      sequenceLength == u.consumed && n == at + |u.bytes| && output[..n] == old(output[..at]) + u.bytes
  {
    var c := input[1];
    sequenceLength, n := 2, at + 1;
    if c == 98 {
      output[at] := 8;
    } else if c == 102 {
      output[at] := 12;
    } else if c == 110 {
      output[at] := 10;
    } else if c == 114 {
      output[at] := 13;
    } else if c == 116 {
      output[at] := 9;
    } else if c == 34 || c == 92 || c == 47 {
      output[at] := c;
    } else if c == 117 {
      sequenceLength, n := Utf16LiteralToUtf8(input, end, output, at);
    } else {
      sequenceLength := 0;
    }
  }

  /** The decoding pass of `parse_string`. No write of it is outside the output. */
  method DecodeLiteral(literal: Text, end: nat, output: array<Byte>) returns (ok: bool, n: nat, left: nat)
    requires end == ClosingQuote(literal) < |literal| && Tokens(literal) < output.Length
    modifies output
    ensures ok ==> n < output.Length && Decode(literal, end) == Bytes(output[..n])
    ensures !ok ==> Decode(literal, end) == Malformed(left)
  {
    hide Decode, Written, Sequence, Tokens, ClosingQuote;
    BufferSuffices(literal);
    n := 0;
    var rest, ahead: int := literal, end;
    assert output[..0] == [];
    PrependNothing(Decode(literal, end));
    while ahead > 0
      invariant ahead < |rest|
      invariant n + Written(rest, ahead) < output.Length
      invariant Prepend(output[..n], Decode(rest, ahead)) == Decode(literal, end)
      decreases |rest|
    {
      DecodeStep(rest, ahead);
      ghost var before := output[..n];
      if rest[0] != BACKSLASH {
        output[n] := rest[0];
        assert output[..n + 1] == before + [rest[0]];
        PrependTwice(before, [rest[0]], Decode(rest[1..], ahead - 1));
        n := n + 1;
        rest, ahead := rest[1..], ahead - 1;
      } else {
        var sequenceLength;
        sequenceLength, n := DecodeSequence(rest, ahead, output, n);
        if sequenceLength == 0 {
          return false, n, |rest|;
        }
        PrependTwice(before, Sequence(rest, ahead).value.bytes, Decode(rest[sequenceLength..], ahead - sequenceLength));
        rest, ahead := rest[sequenceLength..], ahead - sequenceLength;
      }
    }
    DecodeEnd(rest, ahead);
    return true, n, 0;
  }

  lemma PrependNothing(d: Decoded)
    ensures Prepend([], d) == d
  {
    assert d.Bytes? ==> [] + d.bytes == d.bytes;
  }

  lemma PrependTwice(a: Text, b: Text, d: Decoded)
    ensures Prepend(a, Prepend(b, d)) == Prepend(a + b, d)
  {
    assert d.Bytes? ==> a + (b + d.bytes) == a + b + d.bytes;
  }

  lemma DecodeStep(s: Text, end: nat)
    requires 0 < end < |s|
    ensures s[0] != BACKSLASH ==>
      Decode(s, end) == Prepend([s[0]], Decode(s[1..], end - 1)) && Written(s, end) == 1 + Written(s[1..], end - 1)
    ensures s[0] == BACKSLASH && Sequence(s, end).None? ==> Decode(s, end) == Malformed(|s|)
    ensures s[0] == BACKSLASH && Sequence(s, end).Some? ==>
      var u := Sequence(s, end).value;
      && Decode(s, end) == Prepend(u.bytes, Decode(s[u.consumed..], end - u.consumed))
      && Written(s, end) == |u.bytes| + Written(s[u.consumed..], end - u.consumed)
      && u.consumed <= end + 1
  {}

  lemma DecodeEnd(s: Text, end: int)
    requires end <= 0 && end < |s|
    ensures Decode(s, end) == Bytes([]) && Written(s, end) == 0
  {}

  lemma SizingStep(s: Text)
    requires s != [] && s[0] != QUOTE
    ensures s[0] != BACKSLASH ==> ClosingQuote(s) == 1 + ClosingQuote(s[1..]) && Tokens(s) == 1 + Tokens(s[1..])
    ensures s[0] == BACKSLASH && |s| > 1 ==>
      ClosingQuote(s) == 2 + ClosingQuote(s[2..]) && Tokens(s) == 1 + Tokens(s[2..])
    ensures s[0] == BACKSLASH && |s| == 1 ==> ClosingQuote(s) == 1
  {}

  lemma SizingEnd(s: Text)
    requires s == [] || s[0] == QUOTE
    ensures ClosingQuote(s) == 0 && Tokens(s) == 0
  {}

  lemma NumberTextStep(s: Text, room: nat)
    ensures if room > 0 && s != [] && NumberByte(s[0]) then NumberText(s, room) == [s[0]] + NumberText(s[1..], room - 1)
      else NumberText(s, room) == []
  {}

  /** `skip_utf8_bom`. */
  method SkipUtf8Bom(buffer: ParseBuffer)
    requires buffer.Valid() && buffer.offset == 0
    modifies buffer`offset
    ensures buffer.Valid() && buffer.Rest() == SkipBom(buffer.content)
  {
    if 4 < |buffer.content| && buffer.content[..3] == [0xEF, 0xBB, 0xBF] {
      buffer.offset := 3;
    }
  }

  /** `cJSON_ParseWithLengthOpts`. On success the item owns exactly what has become live; on failure nothing has, and
   the position is inside the text. */
  method ParseWithLengthOpts(value: Text, requireNul: bool, hooks: Allocator, strtod: Strtod)
    returns (item: Option<Item>, position: nat)
    requires Closed(value)
    modifies hooks
    ensures item.Some? ==>
      position <= |value| && Parse(value, requireNul, strtod) == Ok(Tree(item.value), value[position..])
    ensures item.Some? ==>
      Gained(old(hooks.live), hooks.live, Blocks(item.value)) && hooks.refusals == old(hooks.refusals)
    ensures item.Some? ==> AllHold(Texts(item.value))
    ensures item.Some? && requireNul ==> position < |value| && value[position] == 0
    ensures item.None? ==> hooks.live == old(hooks.live) && hooks.refusals >= old(hooks.refusals)
    ensures item.None? && value != [] ==> position < |value|
    ensures item.None? && hooks.refusals == old(hooks.refusals) ==>
      var r := Parse(value, requireNul, strtod); r.Fail? && position == |value| - r.left
    ensures item.Some? ==> exists behind :: Derives(value, requireNul, strtod, Tree(item.value), behind)
    ensures item.None? && hooks.refusals == old(hooks.refusals) ==>
      forall j, behind :: !Derives(value, requireNul, strtod, j, behind)
  {
    ParsesWhatDerives(value, requireNul, strtod);
    hide Derives, Gained, Parsing.ParseValue, SkipSpace, SkipBom, ListBlocks, BodyTexts, Texts, Blocks;
    item := None;
    if |value| == 0 {
      return None, 0;
    }
    ghost var before := hooks.live;
    var node := hooks.Allocate(ITEM_SIZE);
    if node == null {
      return None, 0;
    }
    var newItem := Item(node, None, Nothing, false, false);
    GainedNode(before, hooks.live, newItem);
    ghost var held := hooks.live;
    var buffer := new ParseBuffer(value, hooks, strtod);
    SkipUtf8Bom(buffer);
    buffer.SkipWhitespace();
    NeverOverruns(value, strtod);
    var ok, body := buffer.ParseValue();
    if ok {
      GainedRoot(before, held, hooks.live, newItem, body);
      newItem := newItem.(body := body);
      RootTexts(newItem);
      ghost var texts := Texts(newItem);
      if requireNul {
        assert AllHold(texts);
        buffer.SkipWhitespace();
        if buffer.offset >= |value| || value[buffer.offset] != 0 {
          ok := false;
        }
        assert AllHold(texts);
      }
    }
    if ok {
      return Some(newItem), buffer.offset;
    }
    GiveUp(newItem, hooks, before);
    return None, if buffer.offset < |value| then buffer.offset else |value| - 1;
  }

  lemma NeverOverruns(value: Text, strtod: Strtod)
    requires Closed(value)
    ensures !Parsing.ParseValue(SkipSpace(SkipBom(value)), 0, strtod).Overrun?
  {
    var s := SkipSpace(SkipBom(value));
    SuffixDrop(value, if |value| > 4 && value[..3] == [0xEF, 0xBB, 0xBF] then 3 else 0);
    assert value[0..] == value;
    SkipSpaceSuffix(SkipBom(value));
    ValuePromise(s, 0, strtod);
  }
}
