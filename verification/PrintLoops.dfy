/** The printer as the program runs it: byte by byte into a buffer that grows or is the caller's. */
module PrintLoops {
  import opened Basics
  import opened Strings
  import opened Json
  import opened Memory
  import opened Printing


  class PrintBuffer {
    var buffer: array?<Byte>
    var length: nat
    var offset: nat
    var depth: nat
    const noalloc: bool
    const format: bool
    const hooks: Allocator
    /** Whether the hooks include a `realloc`. */
    const hasReallocate: bool

    ghost predicate Valid()
      reads `buffer, `length, `offset, hooks, buffer
    {
      && length <= INT_MAX
      && (buffer != null ==>
        length <= buffer.Length && (length == 0 ==> offset == 0) && (length > 0 ==> offset < length))
      && (noalloc ==> buffer != null)
      && (!noalloc && buffer != null ==>
        buffer in hooks.live && buffer.Length == length && (length > 0 || hasReallocate))
    }

    /** What has been printed so far. */
    ghost function Out(): (t: Text)
      requires Valid() && buffer != null
      ensures |t| == offset
      reads `buffer, `length, `offset, hooks, buffer
    {
      buffer[..offset]
    }

    /** The longest text, two more bytes included, that the buffer can come to hold. */
    ghost function Limit(): nat
      reads `length
    {
      if noalloc then length else INT_MAX
    }

    /** The caller's bytes behind the part that may be used. */
    ghost function Beyond(): Text
      requires Valid()
      reads `buffer, `length, `offset, hooks, buffer
    {
      if noalloc then buffer[length..] else []
    }

    /** Live blocks other than the buffer. */
    ghost function Others(): set<object>
      reads `buffer, hooks
    {
      if noalloc || buffer == null then hooks.live else hooks.live - {buffer}
    }

    /** The C string in the buffer is t, and the write position is somewhere in it. */
    ghost predicate Holds(t: Text)
      requires Valid()
      reads `buffer, `length, `offset, hooks, buffer
    {
      buffer != null && offset <= |t| && |t| + 2 <= length && buffer[..|t|] == t && buffer[|t|] == 0
    }

    constructor (buffer: array<Byte>, length: nat, noalloc: bool, format: bool, hooks: Allocator, hasReallocate: bool)
      requires length <= buffer.Length && length <= INT_MAX
      requires !noalloc ==> buffer in hooks.live && buffer.Length == length && (length > 0 || hasReallocate)
      ensures Valid() && this.buffer == buffer && this.length == length && offset == 0 && depth == 0
      ensures this.noalloc == noalloc && this.format == format && this.hooks == hooks
      ensures this.hasReallocate == hasReallocate
    {
      this.buffer, this.length, offset, depth := buffer, length, 0, 0;
      this.noalloc, this.format, this.hooks, this.hasReallocate := noalloc, format, hooks, hasReallocate;
    }

    /** `ensure`: room for `needed` more bytes and one to spare. */
    method Ensure(needed: nat) returns (ok: bool)
      requires Valid()
      modifies this`buffer, this`length, hooks
      ensures Valid() && Limit() == old(Limit()) && Beyond() == old(Beyond()) && Others() == old(Others())
      ensures (buffer == old(buffer) || buffer == null || fresh(buffer)) && (noalloc ==> buffer == old(buffer))
      ensures hooks.refusals >= old(hooks.refusals) && (noalloc ==> hooks.refusals == old(hooks.refusals))
      ensures ok <==> old(buffer) != null && offset + needed + 1 <= Limit() && hooks.refusals == old(hooks.refusals)
      ensures ok ==> buffer != null && offset + needed + 1 <= length && Out() == old(Out())
    {
      if buffer == null {
        return false;
      }
      if length > 0 && offset >= length {
        return false;
      }
      if needed > INT_MAX {
        return false;
      }
      var total := needed + offset + 1;
      if total <= length {
        return true;
      }
      if noalloc {
        return false;
      }
      var newsize;
      if total > INT_MAX / 2 {
        if total <= INT_MAX {
          newsize := INT_MAX;
        } else {
          return false;
        }
      } else {
        newsize := total * 2;
      }
      ok := Grow(newsize);
    }

    /** The reallocation in `ensure`, in both of its forms. */
    method Grow(newsize: nat) returns (ok: bool)
      requires Valid() && !noalloc && buffer != null && length < newsize <= INT_MAX
      modifies this`buffer, this`length, hooks
      ensures Valid() && Others() == old(Others())
      ensures buffer == null || fresh(buffer)
      ensures if ok then hooks.refusals == old(hooks.refusals)
        else buffer == null && hooks.refusals > old(hooks.refusals)
      ensures ok ==> buffer != null && length == newsize && Out() == old(Out())
    {
      var newbuffer;
      if hasReallocate {
        newbuffer := hooks.Reallocate(buffer, newsize);
        if newbuffer == null {
          hooks.Release(buffer);
          length := 0;
          buffer := null;
          return false;
        }
      } else {
        newbuffer := hooks.Allocate(newsize);
        if newbuffer == null {
          hooks.Release(buffer);
          length := 0;
          buffer := null;
          return false;
        }
        forall i | 0 <= i <= offset {
          newbuffer[i] := buffer[i];
        }
        hooks.Release(buffer);
      }
      length := newsize;
      buffer := newbuffer;
      return true;
    }

    /** Bytes stored one after the other, as through an advancing pointer. */
    method Store(at: nat, t: Text)
      requires Valid() && buffer != null && at + |t| <= length
      modifies buffer
      ensures Valid() && Beyond() == old(Beyond())
      ensures buffer[..at + |t|] == old(buffer[..at]) + t
    {
      var i := 0;
      while i < |t|
        invariant i <= |t|
        invariant buffer[..at + i] == old(buffer[..at]) + t[..i]
        invariant buffer[length..] == old(buffer[length..])
      {
        buffer[at + i] := t[i];
        assert buffer[..at + i + 1] == buffer[..at + i] + [t[i]];
        assert t[..i + 1] == t[..i] + [t[i]];
        i := i + 1;
      }
      assert t[..i] == t;
    }

    /** A piece of text behind what is printed, after making room for `needed` bytes. */
    method Emit(t: Text, needed: nat, terminate: bool) returns (ok: bool)
      requires Valid() && buffer != null && |t| + (if terminate then 1 else 0) <= needed
      modifies this`buffer, this`length, this`offset, buffer, hooks
      ensures Valid() && Limit() == old(Limit()) && Beyond() == old(Beyond()) && Others() == old(Others())
      ensures (buffer == old(buffer) || buffer == null || fresh(buffer)) && (noalloc ==> buffer == old(buffer))
      ensures hooks.refusals >= old(hooks.refusals) && (noalloc ==> hooks.refusals == old(hooks.refusals))
      ensures ok <==> old(offset) + needed + 1 <= Limit() && hooks.refusals == old(hooks.refusals)
      ensures ok ==> buffer != null && Out() == old(Out()) + t
      ensures ok && terminate ==> Holds(old(Out()) + t)
    {
      ok := Ensure(needed);
      if !ok {
        return;
      }
      Store(offset, if terminate then t + [0] else t);
      assert buffer[..offset + |t|] == old(Out()) + t by {
        assert terminate ==> buffer[..offset + |t| + 1][..offset + |t|] == buffer[..offset + |t|];
        assert terminate ==> (old(Out()) + (t + [0]))[..offset + |t|] == old(Out()) + t;
      }
      assert terminate ==> buffer[offset + |t|] == buffer[..offset + |t| + 1][offset + |t|] == 0;
      offset := offset + |t|;
    }

    /** The last piece of a value: the write position stays in front of it. */
    method EmitLast(t: Text, needed: nat) returns (ok: bool)
      requires Valid() && buffer != null && |t| + 1 <= needed
      modifies this`buffer, this`length, buffer, hooks
      ensures Valid() && Limit() == old(Limit()) && Beyond() == old(Beyond()) && Others() == old(Others())
      ensures (buffer == old(buffer) || buffer == null || fresh(buffer)) && (noalloc ==> buffer == old(buffer))
      ensures hooks.refusals >= old(hooks.refusals) && (noalloc ==> hooks.refusals == old(hooks.refusals))
      ensures ok <==> offset + needed + 1 <= Limit() && hooks.refusals == old(hooks.refusals)
      ensures ok ==> Holds(old(Out()) + t) && offset == old(offset)
    {
      ok := Ensure(needed);
      if !ok {
        return;
      }
      Store(offset, t + [0]);
      assert buffer[..offset + |t| + 1] == old(Out()) + t + [0];
      assert buffer[..offset + |t|] == buffer[..offset + |t| + 1][..offset + |t|];
      assert buffer[offset + |t|] == buffer[..offset + |t| + 1][offset + |t|];
    }

    /** `update_offset`. */
    method UpdateOffset(ghost before: Text, ghost t: Text)
      requires Valid() && Holds(before + t) && |before| <= offset && NulFree(t)
      modifies this`offset
      ensures Valid() && buffer != null && Out() == before + t
      ensures Limit() == old(Limit()) && Beyond() == old(Beyond()) && Others() == old(Others())
    {
      var n := offset;
      while buffer[n] != 0
        invariant offset <= n <= |before + t|
        decreases |before + t| - n
      {
        n := n + 1;
      }
      offset := n;
    }

    /** The sizing loop of `print_string_ptr`. */
    method CountEscapes(input: Text) returns (escapeCharacters: nat)
      ensures escapeCharacters == ExtraAll(input)
    {
      escapeCharacters := 0;
      var rest := input;
      while rest != []
        invariant escapeCharacters + ExtraAll(rest) == ExtraAll(input)
      {
        var c := rest[0];
        if c == 34 || c == 92 || c == 8 || c == 12 || c == 10 || c == 13 || c == 9 {
          escapeCharacters := escapeCharacters + 1;
        } else if c < 32 {
          escapeCharacters := escapeCharacters + 5;
        }
        rest := rest[1..];
      }
    }

    lemma Bounds()
      requires Valid() && buffer != null
      ensures length <= buffer.Length
    {}

    /** One byte of the text, escaped where it must be; `sprintf` also stores a terminator behind its digits. */
    method StoreEscaped(at: nat, c: Byte) returns (next: nat)
      requires Valid() && buffer != null && at + |Escape(c)| + 1 <= length && c != 0
      modifies buffer
      ensures Valid() && Beyond() == old(Beyond())
      ensures next == at + |Escape(c)|
      ensures buffer[..next] == old(buffer[..at]) + Escape(c)
    {
      hide Valid, Beyond;
      Bounds();
      if c > 31 && c != 34 && c != 92 {
        Store(at, [c]);
        return at + 1;
      }
      Store(at, [BACKSLASH]);
      var letter := EscapeLetter(c);
      ghost var was := old(buffer[..at]);
      assert buffer[..at + 1] == was + [BACKSLASH];
      if letter != 0 {
        Store(at + 1, [letter]);
        assert was + [BACKSLASH] + [letter] == was + Escape(c);
        return at + 2;
      }
      assert buffer[..at] == buffer[..at + 1][..at] == was;
      StoreCode(at, c);
      return at + 6;
    }

    /** `sprintf` with the code of a control character, behind the backslash; its terminator is overwritten later. */
    method StoreCode(at: nat, c: Byte)
      requires Valid() && buffer != null && at + 7 <= length && 0 < c < 32 && EscapeLetter(c) == 0
      requires buffer[at] == BACKSLASH
      modifies buffer
      ensures Valid() && Beyond() == old(Beyond()) && buffer[..at + 6] == old(buffer[..at]) + Escape(c)
    {
      ghost var was := old(buffer[..at]);
      assert buffer[..at + 1] == was + [BACKSLASH];
      var digits := [117, 48, 48, HexDigit(c / 16), HexDigit(c % 16)];
      Store(at + 1, digits + [0]);
      assert buffer[..at + 7] == was + [BACKSLASH] + (digits + [0]);
      assert buffer[..at + 6] == buffer[..at + 7][..at + 6];
    }

    /** The escaping loop of `print_string_ptr`. */
    method StoreAllEscaped(at: nat, input: Text) returns (next: nat)
      requires Valid() && buffer != null && at + |EscapeAll(input)| + 1 <= length && NulFree(input)
      modifies buffer
      ensures Valid() && Beyond() == old(Beyond())
      ensures next == at + |EscapeAll(input)|
      ensures buffer[..next] == old(buffer[..at]) + EscapeAll(input)
    {
      hide EscapeAll, Escape;
      next := at;
      var rest := input;
      while rest != []
        invariant NulFree(rest) && at <= next && next + |EscapeAll(rest)| == at + |EscapeAll(input)|
        invariant Valid() && Beyond() == old(Beyond())
        invariant buffer[..next] + EscapeAll(rest) == old(buffer[..at]) + EscapeAll(input)
      {
        EscapeHead(rest);
        ghost var written := buffer[..next];
        next := StoreEscaped(next, rest[0]);
        assert buffer[..next] == written + Escape(rest[0]);
        rest := rest[1..];
      }
      assert EscapeAll([]) == [] by { EscapeNothing(); }
    }

    /** `print_string_ptr`. */
    method PrintStringPtr(input: Text) returns (ok: bool)
      requires Valid() && buffer != null && NulFree(input)
      modifies this`buffer, this`length, buffer, hooks
      ensures Valid() && Limit() == old(Limit()) && Beyond() == old(Beyond()) && Others() == old(Others())
      ensures (buffer == old(buffer) || buffer == null || fresh(buffer)) && (noalloc ==> buffer == old(buffer))
      ensures hooks.refusals >= old(hooks.refusals) && (noalloc ==> hooks.refusals == old(hooks.refusals))
      ensures ok <==> offset + |Quote(input)| + 2 <= Limit() && hooks.refusals == old(hooks.refusals)
      ensures ok ==> Holds(old(Out()) + Quote(input)) && offset == old(offset)
    {
      hide EscapeAll, Quote;
      EscapedLength(input);
      QuoteLength(input);
      var escapeCharacters := CountEscapes(input);
      var outputLength := |input| + escapeCharacters;
      ok := Ensure(outputLength + 3);
      if !ok {
        return;
      }
      StoreQuoted(input, escapeCharacters, outputLength);
    }

    /** The writing half of `print_string_ptr`: a text without escapes is copied as it is. */
    method StoreQuoted(input: Text, escapeCharacters: nat, outputLength: nat)
      requires Valid() && buffer != null && NulFree(input) && offset + outputLength + 4 <= length
      requires escapeCharacters == ExtraAll(input) && outputLength == |EscapeAll(input)|
      modifies buffer
      ensures Valid() && Beyond() == old(Beyond()) && Holds(old(Out()) + Quote(input))
    {
      hide EscapeAll, Quote;
      ghost var before := Out();
      Store(offset, [QUOTE]);
      StoreText(offset + 1, input, escapeCharacters);
      assert buffer[..offset + 1 + outputLength] == before + [QUOTE] + EscapeAll(input);
      Store(offset + outputLength + 1, [QUOTE, 0]);
      Terminated(before, input, outputLength);
    }

    method StoreText(at: nat, input: Text, escapeCharacters: nat)
      requires Valid() && buffer != null && NulFree(input) && at + |EscapeAll(input)| + 1 <= length
      requires escapeCharacters == ExtraAll(input)
      modifies buffer
      ensures Valid() && Beyond() == old(Beyond())
      ensures buffer[..at + |EscapeAll(input)|] == old(buffer[..at]) + EscapeAll(input)
    {
      hide EscapeAll;
      EscapedLength(input);
      if escapeCharacters == 0 {
        Store(at, input);
      } else {
        var end := StoreAllEscaped(at, input);
      }
    }

    /** With the closing quote and the terminator in place, the buffer holds the quoted text. */
    lemma Terminated(before: Text, input: Text, outputLength: nat)
      requires Valid() && buffer != null && |before| == offset && |EscapeAll(input)| == outputLength
      requires offset + outputLength + 4 <= length
      requires buffer[..offset + outputLength + 3] == before + [QUOTE] + EscapeAll(input) + [QUOTE, 0]
      ensures Holds(before + Quote(input))
    {
      var n := offset + outputLength + 2;
      assert buffer[..n] == buffer[..n + 1][..n];
      assert before + [QUOTE] + EscapeAll(input) + [QUOTE, 0] == before + Quote(input) + [0];
      assert buffer[n] == buffer[..n + 1][n];
    }

    /** `print_number`, for a number that is an `int`: the text of `sprintf` is copied behind what is printed. */
    method PrintNumber(n: int) returns (ok: bool)
      requires Valid() && buffer != null
      modifies this`buffer, this`length, this`offset, buffer, hooks
      ensures Valid() && Limit() == old(Limit()) && Beyond() == old(Beyond()) && Others() == old(Others())
      ensures (buffer == old(buffer) || buffer == null || fresh(buffer)) && (noalloc ==> buffer == old(buffer))
      ensures hooks.refusals >= old(hooks.refusals) && (noalloc ==> hooks.refusals == old(hooks.refusals))
      ensures ok <==> old(offset) + |Decimal(n)| + 2 <= Limit() && hooks.refusals == old(hooks.refusals)
      ensures ok ==> Holds(old(Out()) + Decimal(n)) && offset >= old(offset)
    {
      var number := Decimal(n);
      ok := Emit(number, |number| + 1, true);
    }

    /** `print_value`. It prints into a buffer with room for the text and two more bytes, and into no smaller one. */
    method PrintValue(item: Json) returns (ok: bool)
      requires Valid() && buffer != null && Plain(item)
      modifies this, buffer, hooks
      ensures Valid() && Limit() == old(Limit()) && Beyond() == old(Beyond()) && Others() == old(Others())
      ensures (buffer == old(buffer) || buffer == null || fresh(buffer)) && (noalloc ==> buffer == old(buffer))
      ensures hooks.refusals >= old(hooks.refusals) && (noalloc ==> hooks.refusals == old(hooks.refusals))
      ensures ok <==>
        NoInvalid(item) && old(offset + |Print(item, depth, format)|) + 2 <= Limit() &&
        hooks.refusals == old(hooks.refusals)
      ensures ok ==> depth == old(depth) && Holds(old(Out() + Print(item, depth, format))) && offset >= old(offset)
      decreases item, 2
    {
      hide Valid, Limit, Beyond, Others, Holds;
      match item {
        case Invalid => ok := false;
        case False => ok := EmitLast(FALSE_TEXT, 6);
        case True => ok := EmitLast(TRUE_TEXT, 5);
        case Null => ok := EmitLast(NULL_TEXT, 5);
        case Number(n) => ok := PrintNumber(n);
        case String(s) => ok := PrintStringPtr(s);
        case Array(items) => ok := PrintArray(items);
        case Object(members, _) => ok := PrintObject(members);
      }
    }

    /** A value, with the write position moved behind it. */
    method PrintOn(item: Json) returns (ok: bool)
      requires Valid() && buffer != null && Plain(item)
      modifies this, buffer, hooks
      ensures Valid() && Limit() == old(Limit()) && Beyond() == old(Beyond()) && Others() == old(Others())
      ensures (buffer == old(buffer) || buffer == null || fresh(buffer)) && (noalloc ==> buffer == old(buffer))
      ensures hooks.refusals >= old(hooks.refusals) && (noalloc ==> hooks.refusals == old(hooks.refusals))
      ensures ok <==>
        NoInvalid(item) && old(offset + |Print(item, depth, format)|) + 2 <= Limit() &&
        hooks.refusals == old(hooks.refusals)
      ensures ok ==> depth == old(depth) && buffer != null && Out() == old(Out() + Print(item, depth, format))
      decreases item, 3
    {
      hide Valid, Limit, Beyond, Others, Holds, NoInvalid, Print;
      PrintNulFree(item, depth, format);
      ghost var before := Out();
      ok := PrintValue(item);
      if ok {
        UpdateOffset(before, Print(item, depth, format));
      }
    }

    /** One element in `print_array`, with the separator behind it. */
    method PrintItem(item: Json, last: bool) returns (ok: bool)
      requires Valid() && buffer != null && Plain(item)
      modifies this, buffer, hooks
      ensures Valid() && Limit() == old(Limit()) && Beyond() == old(Beyond()) && Others() == old(Others())
      ensures (buffer == old(buffer) || buffer == null || fresh(buffer)) && (noalloc ==> buffer == old(buffer))
      ensures hooks.refusals >= old(hooks.refusals) && (noalloc ==> hooks.refusals == old(hooks.refusals))
      ensures ok <==>
        NoInvalid(item) && old(offset + |PrintItemAnd(item, last, depth, format)|) + 2 <= Limit() &&
          hooks.refusals == old(hooks.refusals)
      ensures ok ==>
        depth == old(depth) && buffer != null && Out() == old(Out() + PrintItemAnd(item, last, depth, format))
      decreases item, 4
    {
      hide Valid, Limit, Beyond, Others, Holds, NoInvalid, Print;
      ok := PrintOn(item);
      if ok && !last {
        ok := Emit(ItemSeparator(format), (if format then 2 else 1) + 1, true);
      }
    }

    /** The loop of `print_array`. */
    method PrintElements(items: seq<Json>) returns (ok: bool)
      requires Valid() && buffer != null && PlainItems(items)
      modifies this, buffer, hooks
      ensures Valid() && Limit() == old(Limit()) && Beyond() == old(Beyond()) && Others() == old(Others())
      ensures (buffer == old(buffer) || buffer == null || fresh(buffer)) && (noalloc ==> buffer == old(buffer))
      ensures hooks.refusals >= old(hooks.refusals) && (noalloc ==> hooks.refusals == old(hooks.refusals))
      ensures ok ==> NoInvalid(Array(items)) && hooks.refusals == old(hooks.refusals)
      ensures ok ==> depth == old(depth) && buffer != null && Out() == old(Out() + PrintItems(items, depth, format))
      ensures !ok ==>
        !NoInvalid(Array(items)) || old(offset + |PrintItems(items, depth, format)|) + 2 > Limit() ||
          hooks.refusals > old(hooks.refusals)
      decreases items, 0
    {
      hide PrintItems, PrintItemAnd, Print, NoInvalid, Valid, Limit, Beyond, Others, Holds;
      ghost var whole := Out() + PrintItems(items, depth, format);
      var rest := items;
      while rest != []
        invariant Valid() && Limit() == old(Limit()) && Beyond() == old(Beyond()) && Others() == old(Others())
        invariant buffer != null && (buffer == old(buffer) || fresh(buffer)) && (noalloc ==> buffer == old(buffer))
        invariant hooks.refusals == old(hooks.refusals) && depth == old(depth)
        invariant PlainItems(rest) && |rest| <= |items| && rest == items[|items| - |rest|..]
        invariant Out() + PrintItems(rest, depth, format) == whole
        invariant NoInvalid(Array(items)) <==> NoInvalid(Array(rest))
        decreases |rest|
      {
        ItemsHead(rest, depth, format);
        assert rest[0] == items[|items| - |rest|];
        ok := PrintItem(rest[0], |rest| == 1);
        if !ok {
          return;
        }
        rest := rest[1..];
      }
      NoItems(depth, format);
      ok := true;
    }

    /** `print_array`. */
    method PrintArray(items: seq<Json>) returns (ok: bool)
      requires Valid() && buffer != null && PlainItems(items)
      modifies this, buffer, hooks
      ensures Valid() && Limit() == old(Limit()) && Beyond() == old(Beyond()) && Others() == old(Others())
      ensures (buffer == old(buffer) || buffer == null || fresh(buffer)) && (noalloc ==> buffer == old(buffer))
      ensures hooks.refusals >= old(hooks.refusals) && (noalloc ==> hooks.refusals == old(hooks.refusals))
      ensures ok <==>
        NoInvalid(Array(items)) && old(offset + |Print(Array(items), depth, format)|) + 2 <= Limit() &&
          hooks.refusals == old(hooks.refusals)
      ensures ok ==>
        depth == old(depth) && Holds(old(Out() + Print(Array(items), depth, format))) && offset >= old(offset)
      decreases items, 1
    {
      hide Print, PrintItems, NoInvalid, Valid, Limit, Beyond, Others, Holds;
      ArrayText(Out(), items, depth, format);
      ok := Emit([OPEN_BRACKET], 1, false);
      if !ok {
        return;
      }
      depth := depth + 1;
      ok := PrintElements(items);
      if !ok {
        return;
      }
      ok := EmitLast([CLOSE_BRACKET], 2);
      depth := depth - 1;
    }

    /** The indentation of a name in the formatted text. */
    method PrintIndentation() returns (ok: bool)
      requires Valid() && buffer != null
      modifies this`buffer, this`length, this`offset, buffer, hooks
      ensures Valid() && Limit() == old(Limit()) && Beyond() == old(Beyond()) && Others() == old(Others())
      ensures (buffer == old(buffer) || buffer == null || fresh(buffer)) && (noalloc ==> buffer == old(buffer))
      ensures hooks.refusals >= old(hooks.refusals) && (noalloc ==> hooks.refusals == old(hooks.refusals))
      ensures ok ==> hooks.refusals == old(hooks.refusals) && buffer != null
      ensures ok ==> Out() == old(Out()) + (if format then Tabs(depth) else [])
      ensures !ok ==> format && (old(offset) + |Tabs(depth)| + 1 > Limit() || hooks.refusals > old(hooks.refusals))
    {
      hide Valid, Limit, Beyond, Others, Holds;
      ok := true;
      if format {
        ok := Emit(Tabs(depth), depth, false);
      }
    }

    /** A name, with the write position moved behind it. */
    method PrintStringOn(key: Text) returns (ok: bool)
      requires Valid() && buffer != null && NulFree(key)
      modifies this`buffer, this`length, this`offset, buffer, hooks
      ensures Valid() && Limit() == old(Limit()) && Beyond() == old(Beyond()) && Others() == old(Others())
      ensures (buffer == old(buffer) || buffer == null || fresh(buffer)) && (noalloc ==> buffer == old(buffer))
      ensures hooks.refusals >= old(hooks.refusals) && (noalloc ==> hooks.refusals == old(hooks.refusals))
      ensures ok <==> old(offset) + |Quote(key)| + 2 <= Limit() && hooks.refusals == old(hooks.refusals)
      ensures ok ==> buffer != null && Out() == old(Out()) + Quote(key)
    {
      hide Valid, Limit, Beyond, Others, Holds, Quote;
      ghost var before := Out();
      ok := PrintStringPtr(key);
      if ok {
        UpdateOffset(before, Quote(key));
      }
    }

    /** A member's indentation, name and colon in `print_object`. */
    method PrintName(key: Text) returns (ok: bool)
      requires Valid() && buffer != null && NulFree(key)
      modifies this`buffer, this`length, this`offset, buffer, hooks
      ensures Valid() && Limit() == old(Limit()) && Beyond() == old(Beyond()) && Others() == old(Others())
      ensures (buffer == old(buffer) || buffer == null || fresh(buffer)) && (noalloc ==> buffer == old(buffer))
      ensures hooks.refusals >= old(hooks.refusals) && (noalloc ==> hooks.refusals == old(hooks.refusals))
      ensures ok ==>
        hooks.refusals == old(hooks.refusals) && buffer != null && Out() == old(Out()) + NamePart(key, depth, format)
      ensures !ok ==> old(offset) + |NamePart(key, depth, format)| + 1 > Limit() || hooks.refusals > old(hooks.refusals)
    {
      hide Valid, Limit, Beyond, Others, Holds, Quote;
      ok := PrintIndentation();
      if !ok {
        return;
      }
      ok := PrintStringOn(key);
      if !ok {
        return;
      }
      ok := Emit(NameSeparator(format), if format then 2 else 1, false);
    }

    /** One turn of the loop of `print_object`. */
    method PrintOneMember(m: Member, last: bool) returns (ok: bool)
      requires Valid() && buffer != null && NulFree(m.key) && Plain(m.value)
      modifies this, buffer, hooks
      ensures Valid() && Limit() == old(Limit()) && Beyond() == old(Beyond()) && Others() == old(Others())
      ensures (buffer == old(buffer) || buffer == null || fresh(buffer)) && (noalloc ==> buffer == old(buffer))
      ensures hooks.refusals >= old(hooks.refusals) && (noalloc ==> hooks.refusals == old(hooks.refusals))
      ensures ok ==> NoInvalid(m.value) && hooks.refusals == old(hooks.refusals)
      ensures ok ==> depth == old(depth) && buffer != null && Out() == old(Out() + PrintMember(m, last, depth, format))
      ensures !ok ==>
        !NoInvalid(m.value) || old(offset + |PrintMember(m, last, depth, format)|) + 2 > Limit() ||
          hooks.refusals > old(hooks.refusals)
      decreases m, 2
    {
      hide Valid, Limit, Beyond, Others, Holds, NoInvalid, Print, NamePart, PrintMember, MemberEnd;
      MemberText(Out(), m, last, depth, format);
      ok := PrintName(m.key);
      if !ok {
        return;
      }
      ok := PrintOn(m.value);
      if !ok {
        return;
      }
      var length := (if format then 1 else 0) + (if last then 0 else 1);
      ok := Emit(MemberEnd(last, format), length + 1, true);
    }

    /** The loop of `print_object`. */
    method PrintMembersLoop(members: seq<Member>) returns (ok: bool)
      requires Valid() && buffer != null && PlainMembers(members)
      modifies this, buffer, hooks
      ensures Valid() && Limit() == old(Limit()) && Beyond() == old(Beyond()) && Others() == old(Others())
      ensures (buffer == old(buffer) || buffer == null || fresh(buffer)) && (noalloc ==> buffer == old(buffer))
      ensures hooks.refusals >= old(hooks.refusals) && (noalloc ==> hooks.refusals == old(hooks.refusals))
      ensures ok ==> NoInvalid(Object(members)) && hooks.refusals == old(hooks.refusals)
      ensures ok ==> depth == old(depth) && buffer != null && Out() == old(Out() + PrintMembers(members, depth, format))
      ensures !ok ==>
        !NoInvalid(Object(members)) || old(offset + |PrintMembers(members, depth, format)|) + 2 > Limit() ||
          hooks.refusals > old(hooks.refusals)
      decreases members, 0
    {
      hide PrintMembers, PrintMember, Print, NoInvalid, Valid, Limit, Beyond, Others, Holds;
      ghost var whole := Out() + PrintMembers(members, depth, format);
      var rest := members;
      while rest != []
        invariant Valid() && Limit() == old(Limit()) && Beyond() == old(Beyond()) && Others() == old(Others())
        invariant buffer != null && (buffer == old(buffer) || fresh(buffer)) && (noalloc ==> buffer == old(buffer))
        invariant hooks.refusals == old(hooks.refusals) && depth == old(depth)
        invariant PlainMembers(rest) && |rest| <= |members| && rest == members[|members| - |rest|..]
        invariant Out() + PrintMembers(rest, depth, format) == whole
        invariant NoInvalid(Object(members)) <==> NoInvalid(Object(rest))
        decreases |rest|
      {
        MembersHead(rest, depth, format);
        assert rest[0] == members[|members| - |rest|];
        ok := PrintOneMember(rest[0], |rest| == 1);
        if !ok {
          return;
        }
        rest := rest[1..];
      }
      NoMembers(depth, format);
      ok := true;
    }

    /** `print_object`. */
    method PrintObject(members: seq<Member>) returns (ok: bool)
      requires Valid() && buffer != null && PlainMembers(members)
      modifies this, buffer, hooks
      ensures Valid() && Limit() == old(Limit()) && Beyond() == old(Beyond()) && Others() == old(Others())
      ensures (buffer == old(buffer) || buffer == null || fresh(buffer)) && (noalloc ==> buffer == old(buffer))
      ensures hooks.refusals >= old(hooks.refusals) && (noalloc ==> hooks.refusals == old(hooks.refusals))
      ensures ok <==>
        NoInvalid(Object(members)) && old(offset + |Print(Object(members), depth, format)|) + 2 <= Limit() &&
          hooks.refusals == old(hooks.refusals)
      ensures ok ==>
        depth == old(depth) && Holds(old(Out() + Print(Object(members), depth, format))) && offset >= old(offset)
      decreases members, 1
    {
      hide Print, PrintMembers, ObjectStart, ObjectEnd, NoInvalid, Valid, Limit, Beyond, Others, Holds;
      ghost var before := Out();
      ObjectText(before, members, depth, format);
      ok := Emit(ObjectStart(format), (if format then 2 else 1) + 1, false);
      if !ok {
        return;
      }
      depth := depth + 1;
      ok := PrintMembersLoop(members);
      if !ok {
        return;
      }
      ok := EmitLast(ObjectEnd(depth - 1, format), if format then depth + 1 else 2);
      depth := depth - 1;
    }
  }

  /** `cJSON_PrintPreallocated`. The exact capacity: the text, its terminator and one byte more. */
  method PrintPreallocated(item: Json, buffer: array<Byte>, length: int, format: bool, hooks: Allocator)
    returns (ok: bool)
    requires Plain(item) && length <= INT_MAX && (length >= 0 ==> length <= buffer.Length)
    modifies buffer, hooks
    ensures ok <==> NoInvalid(item) && length >= |Print(item, 0, format)| + 2
    ensures ok ==> var text := Print(item, 0, format); buffer[..|text|] == text && buffer[|text|] == 0
    ensures buffer[if length < 0 then 0 else length..] == old(buffer[if length < 0 then 0 else length..])
    ensures hooks.live == old(hooks.live)
  {
    if length < 0 {
      return false;
    }
    var p := new PrintBuffer(buffer, length, true, format, hooks, false);
    assert p.Out() == [] && p.Beyond() == buffer[length..];
    ok := p.PrintValue(item);
    assert [] + Print(item, 0, format) == Print(item, 0, format);
  }

  /** `print`: the text in a block of exactly its size, or nothing. On either way out no other block has come or gone.
   */
  method PrintTree(item: Json, format: bool, hooks: Allocator, hasReallocate: bool) returns (printed: array?<Byte>)
    requires Plain(item)
    modifies hooks
    ensures printed == null ==> hooks.live == old(hooks.live)
    ensures printed != null ==> fresh(printed) && hooks.live == old(hooks.live) + {printed}
    ensures printed != null ==> printed[..] == Print(item, 0, format) + [0]
    ensures printed != null <==>
      NoInvalid(item) && |Print(item, 0, format)| + 2 <= INT_MAX && hooks.refusals == old(hooks.refusals)
  {
    hide Print, NoInvalid, Plain;
    var first := hooks.Allocate(256);
    if first == null {
      return null;
    }
    var p := new PrintBuffer(first, 256, false, format, hooks, hasReallocate);
    assert p.Out() == [] && p.Others() == old(hooks.live);
    var ok := p.PrintValue(item);
    if !ok {
      if p.buffer != null {
        hooks.Release(p.buffer);
      }
      return null;
    }
    ghost var text := Print(item, 0, format);
    PrintNulFree(item, 0, format);
    p.UpdateOffset([], text);
    printed := Trim(p, text);
  }

  /** The end of `print`: the text moves to a block of its size. */
  method Trim(p: PrintBuffer, ghost text: Text) returns (printed: array?<Byte>)
    requires p.Valid() && p.Holds(text) && p.offset == |text| && !p.noalloc
    modifies p, p.hooks
    ensures printed == null ==> p.hooks.live == old(p.Others()) && p.hooks.refusals > old(p.hooks.refusals)
    ensures printed != null ==>
      fresh(printed) && p.hooks.live == old(p.Others()) + {printed} && p.hooks.refusals == old(p.hooks.refusals)
    ensures printed != null ==> printed[..] == text + [0]
  {
    var buffer, n := p.buffer, p.offset + 1;
    assert forall i | 0 <= i < |text| :: buffer[..|text|][i] == buffer[i];
    if p.hasReallocate {
      printed := p.hooks.Reallocate(buffer, n);
      if printed == null {
        p.hooks.Release(buffer);
        return;
      }
      p.buffer := null;
    } else {
      printed := p.hooks.Allocate(n);
      if printed == null {
        p.hooks.Release(buffer);
        return;
      }
      forall i | 0 <= i < n && i < p.length {
        printed[i] := buffer[i];
      }
      printed[p.offset] := 0;
      p.hooks.Release(buffer);
    }
  }

  /** `cJSON_PrintBuffered`: the caller chooses the first size, and gets the buffer as it is. */
  method PrintBuffered(item: Json, prebuffer: int, format: bool, hooks: Allocator, hasReallocate: bool)
    returns (printed: array?<Byte>)
    requires Plain(item) && prebuffer <= INT_MAX && (prebuffer == 0 ==> hasReallocate)
    modifies hooks
    ensures printed == null ==> hooks.live == old(hooks.live)
    ensures printed != null ==> fresh(printed) && hooks.live == old(hooks.live) + {printed}
    ensures printed != null ==>
      var text := Print(item, 0, format); |text| < printed.Length && printed[..|text|] == text && printed[|text|] == 0
    ensures printed != null <==>
      prebuffer >= 0 && NoInvalid(item) && |Print(item, 0, format)| + 2 <= INT_MAX &&
        hooks.refusals == old(hooks.refusals)
  {
    hide Print, NoInvalid, Plain;
    if prebuffer < 0 {
      return null;
    }
    var first := hooks.Allocate(prebuffer);
    if first == null {
      return null;
    }
    var p := new PrintBuffer(first, prebuffer, false, format, hooks, hasReallocate);
    assert p.Out() == [] && p.Others() == old(hooks.live);
    var ok := p.PrintValue(item);
    if !ok {
      if p.buffer != null {
        hooks.Release(p.buffer);
      }
      return null;
    }
    assert [] + Print(item, 0, format) == Print(item, 0, format);
    printed := p.buffer;
  }
}
