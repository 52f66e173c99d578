/** Items as the blocks of memory they are made of: who owns what, deleting and duplicating. */
module Items {
  import opened Basics
  import opened Strings
  import opened Sorting
  import opened Json
  import opened Memory

  type Block = array<Byte>

  /** A C string in a block of its own. */
  datatype Owned = Owned(block: Block, text: Text)

  /** A value without a block of its own. */
  type Scalar = j: Json | j.False? || j.True? || j.Null? || j.Number? witness Null

  datatype Body =
    | Nothing
    | Leaf(json: Scalar)
    | Str(value: Owned)
    | Children(isObject: bool, items: seq<Item>)

  /** A `cJSON` structure. A reference does not own what is below it, and a constant name is not owned either. */
  datatype Item = Item(node: Block, name: Option<Owned>, body: Body, reference: bool, constName: bool)

  function BodyBlocks(body: Body): seq<Block> {
    match body
    case Str(value) => [value.block]
    case Children(_, items) => ListBlocks(items)
    case _ => []
  }

  /** The blocks that an item owns. */
  function Blocks(item: Item): seq<Block> {
    (if item.reference then [] else BodyBlocks(item.body))
    + (if item.name.Some? && !item.constName then [item.name.value.block] else [])
    + [item.node]
  }

  function ListBlocks(items: seq<Item>): seq<Block> {
    if items == [] then [] else Blocks(items[0]) + ListBlocks(items[1..])
  }

  function NameText(item: Item): Text {
    if item.name.Some? then item.name.value.text else []
  }

  /** The tree that an item is. */
  function Tree(item: Item): Json {
    BodyTree(item.body)
  }

  function BodyTree(body: Body): Json {
    match body
    case Nothing => Invalid
    case Leaf(json) => json
    case Str(value) => String(value.text)
    case Children(isObject, items) => if isObject then Object(TreeMembers(items)) else Array(TreeItems(items))
  }

  function TreeItems(items: seq<Item>): seq<Json> {
    if items == [] then [] else [Tree(items[0])] + TreeItems(items[1..])
  }

  function TreeMembers(items: seq<Item>): seq<Member> {
    if items == [] then [] else [Entry(NameText(items[0]), Tree(items[0]))] + TreeMembers(items[1..])
  }

  /** The block holds the text and a terminator. */
  ghost predicate Holds(o: Owned)
    reads o.block
  {
    |o.text| < o.block.Length && o.block[..|o.text|] == o.text && o.block[|o.text|] == 0 && NulFree(o.text)
  }

  ghost predicate AllHold(os: seq<Owned>)
    reads set o | o in os :: o.block
  {
    forall i | 0 <= i < |os| :: Holds(os[i])
  }

  function NameTexts(item: Item): seq<Owned> {
    if item.name.Some? then [item.name.value] else []
  }

  function BodyTexts(body: Body): seq<Owned> {
    match body
    case Str(value) => [value]
    case Children(_, items) => ListTexts(items)
    case _ => []
  }

  /** All texts of an item, its own and those it refers to. */
  function Texts(item: Item): seq<Owned> {
    BodyTexts(item.body) + NameTexts(item)
  }

  function ListTexts(items: seq<Item>): seq<Owned> {
    if items == [] then [] else Texts(items[0]) + ListTexts(items[1..])
  }

  lemma AllHoldConcat(a: seq<Owned>, b: seq<Owned>)
    ensures AllHold(a + b) <==> AllHold(a) && AllHold(b)
  {
    assert forall i | 0 <= i < |a| :: (a + b)[i] == a[i];
    assert forall i | 0 <= i < |b| :: (a + b)[|a| + i] == b[i];
  }

  lemma AllHoldOne(o: Owned)
    ensures AllHold([o]) <==> Holds(o)
  {
    assert [o][0] == o;
  }

  /** What there is to know of an item before it is copied. */
  lemma TextsHold(item: Item)
    requires AllHold(Texts(item))
    ensures item.body.Str? ==> Holds(item.body.value)
    ensures item.body.Children? ==> AllHold(ListTexts(item.body.items))
    ensures AllHold(BodyTexts(item.body)) && AllHold(NameTexts(item))
    ensures item.name.Some? ==> Holds(item.name.value)
  {
    AllHoldConcat(BodyTexts(item.body), NameTexts(item));
    if item.body.Str? {
      AllHoldOne(item.body.value);
    }
    if item.name.Some? {
      AllHoldOne(item.name.value);
    }
  }

  ghost predicate NoneTwice(bs: seq<Block>) {
    forall i, j | 0 <= i < j < |bs| :: bs[i] != bs[j]
  }

  ghost function SetOf(bs: seq<Block>): set<object> {
    set b | b in bs
  }

  /** The blocks are all live, and there are no two of them the same. */
  ghost predicate LiveOnce(bs: seq<Block>, live: set<object>) {
    NoneTwice(bs) && SetOf(bs) <= live
  }

  /** What is live now is what was live before and these blocks, each of them new. */
  ghost predicate Gained(before: set<object>, live: set<object>, bs: seq<Block>) {
    NoneTwice(bs) && live == before + SetOf(bs) && SetOf(bs) !! before
  }

  lemma SetOfConcat(a: seq<Block>, b: seq<Block>)
    ensures SetOf(a + b) == SetOf(a) + SetOf(b)
  {}

  lemma LiveOnceConcat(a: seq<Block>, b: seq<Block>, live: set<object>)
    requires LiveOnce(a + b, live)
    ensures LiveOnce(a, live) && LiveOnce(b, live) && SetOf(a) !! SetOf(b)
    ensures LiveOnce(b, live - SetOf(a))
  {
    SetOfConcat(a, b);
    assert forall i | 0 <= i < |a| :: (a + b)[i] == a[i];
    assert forall i | 0 <= i < |b| :: (a + b)[|a| + i] == b[i];
    forall x | x in SetOf(a)
      ensures x !in SetOf(b)
    {}
  }

  lemma GainedConcat(before: set<object>, middle: set<object>, live: set<object>, a: seq<Block>, b: seq<Block>)
    requires Gained(before, middle, a) && Gained(middle, live, b)
    ensures Gained(before, live, a + b)
  {
    SetOfConcat(a, b);
    forall i, j | 0 <= i < j < |a + b|
      ensures (a + b)[i] != (a + b)[j]
    {
      if i < |a| <= j {
        assert a[i] in SetOf(a) && b[j-|a|] in SetOf(b);
      }
    }
  }

  /** `cJSON_Delete` on an item and its later siblings: it frees each block that they own, and no other, once. */
  method Delete(items: seq<Item>, hooks: Allocator)
    requires LiveOnce(ListBlocks(items), hooks.live)
    modifies hooks
    ensures hooks.live == old(hooks.live) - SetOf(ListBlocks(items)) && hooks.refusals == old(hooks.refusals)
    decreases items
  {
    hide LiveOnce, SetOf;
    var rest := items;
    ghost var freed: set<object> := {};
    assert SetOf([]) == {} by { SetOfNothing(); }
    while rest != []
      invariant |rest| <= |items| && rest == items[|items| - |rest|..]
      invariant LiveOnce(ListBlocks(rest), hooks.live)
      invariant hooks.live - SetOf(ListBlocks(rest)) == old(hooks.live) - SetOf(ListBlocks(items))
      invariant hooks.refusals == old(hooks.refusals)
      decreases |rest|
    {
      var item := rest[0];
      assert item == items[|items| - |rest|];
      LiveOnceConcat(Blocks(item), ListBlocks(rest[1..]), hooks.live);
      SetOfConcat(Blocks(item), ListBlocks(rest[1..]));
      DeleteOne(item, hooks);
      rest := rest[1..];
    }
  }

  lemma SetOfNothing()
    ensures SetOf([]) == {}
  {}

  lemma SetOfOne(b: Block)
    ensures SetOf([b]) == {b}
  {}

  lemma LiveOnceOne(b: Block, live: set<object>)
    ensures LiveOnce([b], live) <==> b in live
  {
    SetOfOne(b);
  }

  /** `strlen` on the block of a text. */
  method Strlen(s: Owned) returns (n: nat)
    requires Holds(s)
    ensures n == |s.text|
  {
    n := 0;
    while s.block[n] != 0
      invariant n <= |s.text|
      decreases |s.text| - n
    {
      n := n + 1;
    }
  }

  /** `cJSON_strdup`: the bytes up to and with the terminator go to a new block. */
  method Strdup(s: Owned, hooks: Allocator) returns (copy: Option<Owned>)
    requires Holds(s)
    modifies hooks
    ensures copy.None? ==> hooks.live == old(hooks.live) && hooks.refusals > old(hooks.refusals)
    ensures copy.Some? ==> copy.value.text == s.text && Holds(copy.value) && fresh(copy.value.block)
    ensures copy.Some? ==>
      hooks.refusals == old(hooks.refusals) && Gained(old(hooks.live), hooks.live, [copy.value.block])
  {
    var length := Strlen(s);
    var block := hooks.Allocate(length + 1);
    if block == null {
      return None;
    }
    var i := 0;
    while i < length + 1
      invariant i <= length + 1 && hooks.live == old(hooks.live) + {block} && hooks.refusals == old(hooks.refusals)
      invariant s.block[..length] == s.text && s.block[length] == 0
      invariant block[..i] == s.block[..i]
    {
      block[i] := s.block[i];
      i := i + 1;
    }
    assert block[..length] == block[..length + 1][..length] && block[length] == block[..length + 1][length];
    SetOfOne(block);
    return Some(Owned(block, s.text));
  }

  const ITEM_SIZE: nat := 40

  /** The item that `cJSON_Duplicate` should make: the same tree, owning all of it but a constant name. */
  ghost predicate Copies(c: Item, item: Item) {
    Tree(c) == Tree(item) && NameText(c) == NameText(item) && !c.reference && c.constName == item.constName
    && (c.name.Some? <==> item.name.Some?)
  }

  lemma GainedInsert(before: set<object>, middle: set<object>, live: set<object>, a: seq<Block>, b: seq<Block>,
      c: seq<Block>)
    requires Gained(before, middle, a + c) && Gained(middle, live, b)
    ensures Gained(before, live, a + b + c)
  {
    SetOfConcat(a, c);
    SetOfConcat(a, b);
    SetOfConcat(a + b, c);
    assert forall i | 0 <= i < |a| :: (a + c)[i] == a[i] && a[i] in SetOf(a);
    assert forall i | 0 <= i < |c| :: (a + c)[|a| + i] == c[i] && c[i] in SetOf(c);
    assert forall i | 0 <= i < |b| :: b[i] in SetOf(b);
    forall i, j | 0 <= i < j < |a + b + c|
      ensures (a + b + c)[i] != (a + b + c)[j]
    {}
  }

  lemma ListBlocksOne(item: Item)
    ensures ListBlocks([item]) == Blocks(item) && ListTexts([item]) == Texts(item)
  {
    assert [item][1..] == [];
  }

  lemma {:induction false} ListBlocksAppend(items: seq<Item>, item: Item)
    ensures ListBlocks(items + [item]) == ListBlocks(items) + Blocks(item)
    ensures ListTexts(items + [item]) == ListTexts(items) + Texts(item)
  {
    hide Blocks, Texts;
    if items == [] {
      ListBlocksOne(item);
      assert items + [item] == [item];
    } else {
      ListBlocksAppend(items[1..], item);
      assert (items + [item])[1..] == items[1..] + [item];
    }
  }

  lemma {:induction false} TreesAppend(items: seq<Item>, item: Item)
    ensures TreeItems(items + [item]) == TreeItems(items) + [Tree(item)]
    ensures TreeMembers(items + [item]) == TreeMembers(items) + [Entry(NameText(item), Tree(item))]
  {
    hide Tree, NameText;
    if items == [] {
      assert items + [item] == [item] && [item][1..] == [];
    } else {
      TreesAppend(items[1..], item);
      assert (items + [item])[1..] == items[1..] + [item];
    }
  }

  lemma GainedIsLive(before: set<object>, live: set<object>, bs: seq<Block>)
    requires Gained(before, live, bs)
    ensures LiveOnce(bs, live) && live - SetOf(bs) == before
  {}

  /** What `cJSON_Delete` does with an item that was made since: it takes everything back. */
  method GiveUp(item: Item, hooks: Allocator, ghost before: set<object>)
    requires Gained(before, hooks.live, Blocks(item))
    modifies hooks
    ensures hooks.live == before && hooks.refusals == old(hooks.refusals)
  {
    ListBlocksOne(item);
    GainedIsLive(before, hooks.live, Blocks(item));
    Delete([item], hooks);
  }

  /** `cJSON_Duplicate`, with its children. Either every block of the copy is new, or nothing has been gained. */
  method Duplicate(item: Item, hooks: Allocator) returns (copy: Option<Item>)
    requires AllHold(Texts(item))
    modifies hooks
    ensures copy.Some? ==> AllHold(Texts(copy.value))
    ensures copy.None? ==> hooks.live == old(hooks.live) && hooks.refusals > old(hooks.refusals)
    ensures copy.Some? ==> hooks.refusals == old(hooks.refusals) && Copies(copy.value, item)
    ensures copy.Some? ==> Gained(old(hooks.live), hooks.live, Blocks(copy.value))
    decreases item, 1
  {
    hide Gained, Blocks, Tree, NameText, ListTexts;
    ghost var before, texts := hooks.live, Texts(item);
    assert AllHold(texts);
    copy := DuplicateOwn(item, hooks);
    if copy.None? {
      return;
    }
    assert AllHold(texts);
    if !item.body.Children? {
      CopyOf(item, copy.value);
      return;
    }
    TextsHold(item);
    TextsHold(copy.value);
    copy := DuplicateChildren(item, copy.value, hooks, before);
  }

  /** An item with the value and the name of another, and none of its children. */
  ghost predicate OwnCopy(c: Item, item: Item) {
    && !c.reference && c.constName == item.constName && (c.name.Some? <==> item.name.Some?) &&
      NameText(c) == NameText(item)
    && if item.body.Children? then c.body == Children(item.body.isObject, [])
      else BodyTree(c.body) == BodyTree(item.body)
  }

  /** `cJSON_Duplicate` up to the children. */
  method DuplicateOwn(item: Item, hooks: Allocator) returns (copy: Option<Item>)
    requires AllHold(Texts(item))
    modifies hooks
    ensures copy.None? ==> hooks.live == old(hooks.live) && hooks.refusals > old(hooks.refusals)
    ensures copy.Some? ==>
      hooks.refusals == old(hooks.refusals) && OwnCopy(copy.value, item) && AllHold(Texts(copy.value))
    ensures copy.Some? ==> Gained(old(hooks.live), hooks.live, Blocks(copy.value))
  {
    hide Gained, ListTexts, ListBlocks, Tree, TreeItems, TreeMembers;
    ghost var before, texts := hooks.live, Texts(item);
    assert AllHold(texts);
    var node := hooks.Allocate(ITEM_SIZE);
    if node == null {
      return None;
    }
    var newitem := Item(node, None, Nothing, false, item.constName);
    GainedNode(before, hooks.live, newitem);
    assert AllHold(texts);
    if item.body.Str? {
      TextsHold(item);
      ghost var middle := hooks.live;
      var s := Strdup(item.body.value, hooks);
      if s.None? {
        GiveUp(newitem, hooks, before);
        return None;
      }
      GainedRoot(before, middle, hooks.live, newitem, Str(s.value));
      AllHoldOne(s.value);
      newitem := newitem.(body := Str(s.value));
      assert AllHold(texts);
    } else {
      ghost var body := BareBody(before, hooks.live, item, newitem);
      newitem := newitem.(body := if item.body.Children? then Children(item.body.isObject, []) else item.body);
    }
    copy := DuplicateName(item, newitem, hooks, before);
  }

  lemma BareBody(before: set<object>, live: set<object>, item: Item, newitem: Item) returns (body: Body)
    requires Gained(before, live, Blocks(newitem)) && newitem.body.Nothing? && !item.body.Str?
    ensures body == if item.body.Children? then Children(item.body.isObject, []) else item.body
    ensures Gained(before, live, Blocks(newitem.(body := body))) && BodyTexts(body) == []
  {
    hide Gained;
    body := if item.body.Children? then Children(item.body.isObject, []) else item.body;
    ListBlocksNone();
    assert Blocks(newitem.(body := body)) == Blocks(newitem);
  }

  /** The name's part of `cJSON_Duplicate`. */
  method DuplicateName(item: Item, newitem: Item, hooks: Allocator, ghost before: set<object>)
    returns (copy: Option<Item>)
    requires AllHold(Texts(item)) && AllHold(BodyTexts(newitem.body)) && Gained(before, hooks.live, Blocks(newitem))
    requires newitem.name.None? && !newitem.reference && newitem.constName == item.constName
    modifies hooks
    ensures copy.None? ==> hooks.live == before && hooks.refusals > old(hooks.refusals)
    ensures copy.Some? ==> hooks.refusals == old(hooks.refusals) && copy.value == newitem.(name := copy.value.name)
    ensures copy.Some? ==> (copy.value.name.Some? <==> item.name.Some?) && NameText(copy.value) == NameText(item)
    ensures copy.Some? ==> AllHold(Texts(copy.value)) && Gained(before, hooks.live, Blocks(copy.value))
  {
    hide Gained, BodyTexts, BodyBlocks, LiveOnce, SetOf;
    ghost var middle, bodyTexts := hooks.live, BodyTexts(newitem.body);
    TextsHold(item);
    var name := item.name;
    if item.name.Some? && !item.constName {
      assert AllHold(bodyTexts);
      name := Strdup(item.name.value, hooks);
      if name.None? {
        GiveUp(newitem, hooks, before);
        return None;
      }
      assert AllHold(bodyTexts);
      assert Blocks(newitem) == BodyBlocks(newitem.body) + [newitem.node];
      GainedInsert(before, middle, hooks.live, BodyBlocks(newitem.body), [name.value.block], [newitem.node]);
    }
    copy := Some(newitem.(name := name));
    AllHoldConcat(bodyTexts, NameTexts(copy.value));
    if name.Some? {
      AllHoldOne(name.value);
    }
  }

  lemma GainedRoot(before: set<object>, middle: set<object>, live: set<object>, item: Item, body: Body)
    requires Gained(before, middle, Blocks(item)) && Gained(middle, live, BodyBlocks(body))
    requires item.body.Nothing? && item.name.None? && !item.reference
    ensures Gained(before, live, Blocks(item.(body := body)))
  {
    assert Blocks(item) == [] + [item.node];
    GainedInsert(before, middle, live, [], BodyBlocks(body), [item.node]);
    assert [] + BodyBlocks(body) + [item.node] == Blocks(item.(body := body));
  }

  lemma ListBlocksNone()
    ensures ListBlocks([]) == [] && TreeItems([]) == [] && TreeMembers([]) == [] && ListTexts([]) == []
  {}

  /** The loop of `cJSON_Duplicate` over the children. */
  method DuplicateChildren(item: Item, newitem: Item, hooks: Allocator, ghost before: set<object>)
    returns (copy: Option<Item>)
    requires Gained(before, hooks.live, Blocks(newitem))
    requires item.body.Children? && newitem.body == Children(item.body.isObject, [])
    requires NameText(newitem) == NameText(item)
    requires !newitem.reference && newitem.constName == item.constName && newitem.name.Some? == item.name.Some?
    requires AllHold(ListTexts(item.body.items)) && AllHold(NameTexts(newitem))
    modifies hooks
    ensures copy.None? ==> hooks.live == before && hooks.refusals > old(hooks.refusals)
    ensures copy.Some? ==> hooks.refusals == old(hooks.refusals) && Copies(copy.value, item)
    ensures copy.Some? ==> Gained(before, hooks.live, Blocks(copy.value)) && AllHold(Texts(copy.value))
    decreases item, 0
  {
    hide Gained, LiveOnce, SetOf, ListBlocks, TreeItems, TreeMembers, Copies, Tree, Blocks, ListTexts, Texts;
    var rest := item.body.items;
    var done: seq<Item> := [];
    ListBlocksNone();
    assert newitem.(body := Children(item.body.isObject, [])) == newitem;
    while rest != []
      invariant |rest| <= |item.body.items| && rest == item.body.items[|item.body.items| - |rest|..]
      invariant Gained(before, hooks.live, Blocks(newitem.(body := Children(item.body.isObject, done))))
      invariant TreeItems(done) + TreeItems(rest) == TreeItems(item.body.items)
      invariant TreeMembers(done) + TreeMembers(rest) == TreeMembers(item.body.items)
      invariant AllHold(ListTexts(rest)) && AllHold(ListTexts(done)) && AllHold(NameTexts(newitem))
      invariant hooks.refusals == old(hooks.refusals)
      decreases |rest|
    {
      assert rest[0] == item.body.items[|item.body.items| - |rest|];
      TreeHead(rest);
      AllHoldConcat(Texts(rest[0]), ListTexts(rest[1..]));
      assert AllHold(ListTexts(rest[1..]));
      var ok;
      ok, done := DuplicateChild(rest[0], newitem, item.body.isObject, done, hooks, before);
      if !ok {
        return None;
      }
      assert AllHold(ListTexts(rest[1..]));
      rest := rest[1..];
    }
    ListBlocksNone();
    assert TreeItems(done) + [] == TreeItems(done) && TreeMembers(done) + [] == TreeMembers(done);
    var whole := newitem.(body := Children(item.body.isObject, done));
    CopyOf(item, whole);
    WholeTexts(whole);
    copy := Some(whole);
  }

  lemma WholeTexts(item: Item)
    requires item.body.Children?
    ensures AllHold(Texts(item)) <==> AllHold(ListTexts(item.body.items)) && AllHold(NameTexts(item))
  {
    AllHoldConcat(ListTexts(item.body.items), NameTexts(item));
  }

  /** The blocks of an item with some children. */
  lemma PartialBlocks(newitem: Item, isObject: bool, done: seq<Item>) returns (tail: seq<Block>)
    requires !newitem.reference
    ensures Blocks(newitem.(body := Children(isObject, done))) == ListBlocks(done) + tail
    ensures tail ==
      (if newitem.name.Some? && !newitem.constName then [newitem.name.value.block] else []) + [newitem.node]
  {
    hide ListBlocks;
    tail := (if newitem.name.Some? && !newitem.constName then [newitem.name.value.block] else []) + [newitem.node];
  }

  /** One turn of that loop: a child more, or everything given back. */
  method DuplicateChild(child: Item, newitem: Item, isObject: bool, done: seq<Item>, hooks: Allocator,
      ghost before: set<object>)
    returns (ok: bool, more: seq<Item>)
    requires !newitem.reference && Gained(before, hooks.live, Blocks(newitem.(body := Children(isObject, done))))
    requires AllHold(Texts(child)) && AllHold(ListTexts(done))
    modifies hooks
    ensures ok ==> TreeItems(more) == TreeItems(done) + [Tree(child)] && AllHold(ListTexts(more))
    ensures ok ==> TreeMembers(more) == TreeMembers(done) + [Entry(NameText(child), Tree(child))]
    ensures ok ==>
      hooks.refusals == old(hooks.refusals) &&
      Gained(before, hooks.live, Blocks(newitem.(body := Children(isObject, more))))
    ensures !ok ==> hooks.live == before && hooks.refusals > old(hooks.refusals)
    decreases child, 2
  {
    hide Gained, Blocks, ListBlocks, TreeItems, TreeMembers, Tree, NameText, Copies, Texts, ListTexts;
    ghost var middle := hooks.live;
    ghost var texts := ListTexts(done);
    assert AllHold(texts);
    var newchild := Duplicate(child, hooks);
    assert AllHold(texts);
    ghost var tail := PartialBlocks(newitem, isObject, done);
    if newchild.None? {
      GiveUp(newitem.(body := Children(isObject, done)), hooks, before);
      return false, done;
    }
    GainedInsert(before, middle, hooks.live, ListBlocks(done), Blocks(newchild.value), tail);
    SameTree(newchild.value, child);
    ListBlocksAppend(done, newchild.value);
    TreesAppend(done, newchild.value);
    AllHoldConcat(ListTexts(done), Texts(newchild.value));
    more := done + [newchild.value];
    ghost var same := PartialBlocks(newitem, isObject, more);
    ok := true;
  }

  lemma CopyOf(item: Item, copy: Item)
    requires !copy.reference && copy.constName == item.constName && copy.name.Some? == item.name.Some?
    requires NameText(copy) == NameText(item)
    ensures BodyTree(copy.body) == BodyTree(item.body) ==> Copies(copy, item)
  {}

  lemma SameTree(copy: Item, item: Item)
    requires Copies(copy, item)
    ensures Tree(copy) == Tree(item) && NameText(copy) == NameText(item)
  {}

  lemma TreeHead(items: seq<Item>)
    requires items != []
    ensures TreeItems(items) == [Tree(items[0])] + TreeItems(items[1..])
    ensures ListTexts(items) == Texts(items[0]) + ListTexts(items[1..])
    ensures TreeMembers(items) == [Entry(NameText(items[0]), Tree(items[0]))] + TreeMembers(items[1..])
  {}

  lemma GainedNode(before: set<object>, live: set<object>, item: Item)
    requires item.body.Nothing? && item.name.None? && live == before + {item.node} && item.node !in before
    ensures Gained(before, live, Blocks(item))
  {
    SetOfOne(item.node);
  }

  /** One turn of the loop of `cJSON_Delete`. */
  method DeleteOne(item: Item, hooks: Allocator)
    requires LiveOnce(Blocks(item), hooks.live)
    modifies hooks
    ensures hooks.live == old(hooks.live) - SetOf(Blocks(item)) && hooks.refusals == old(hooks.refusals)
    decreases item
  {
    hide LiveOnce, SetOf, ListBlocks;
    ghost var below := if item.reference then [] else BodyBlocks(item.body);
    ghost var name := if item.name.Some? && !item.constName then [item.name.value.block] else [];
    SetOfNothing();
    SetOfConcat(below + name, [item.node]);
    SetOfConcat(below, name);
    LiveOnceConcat(below + name, [item.node], hooks.live);
    LiveOnceConcat(below, name, hooks.live);
    SetOfOne(item.node);
    LiveOnceOne(item.node, hooks.live);
    if !item.reference && item.body.Children? {
      Delete(item.body.items, hooks);
    }
    if !item.reference && item.body.Str? {
      SetOfOne(item.body.value.block);
      LiveOnceOne(item.body.value.block, hooks.live);
      hooks.Release(item.body.value.block);
    }
    if !item.constName && item.name.Some? {
      SetOfOne(item.name.value.block);
      LiveOnceOne(item.name.value.block, old(hooks.live));
      hooks.Release(item.name.value.block);
    }
    hooks.Release(item.node);
  }
}
