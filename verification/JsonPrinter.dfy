/** cJSON's printer as it runs: space is requested with `ensure`, bytes are stored at the
    offset, and strlen moves the offset on.  Printing succeeds exactly when the text plus two
    bytes fit, and then the buffer holds exactly the text of JsonText. */
module JsonPrinter {
  import opened JsonValue
  import opened JsonText
  import opened JsonRoundTrip

  class PrintBuffer {
    var buffer: array<Byte>
    var offset: nat
    var depth: nat
    const noalloc: bool
    const format: bool

    constructor (space: array<Byte>, noalloc: bool, format: bool)
      requires space.Length <= INT_MAX
      ensures Valid() && buffer == space && offset == 0 && depth == 0
      ensures this.noalloc == noalloc && this.format == format
    {
      buffer := space;
      offset := 0;
      depth := 0;
      this.noalloc := noalloc;
      this.format := format;
    }

    /** The offset is inside the buffer, or nothing has been allocated yet. */
    ghost predicate Valid()
      reads this
    {
      buffer.Length <= INT_MAX && (offset < buffer.Length || (offset == 0 && buffer.Length == 0))
    }

    /** How large the buffer can ever be. */
    ghost function Limit(): nat
      reads this
    {
      if noalloc then buffer.Length else INT_MAX
    }

    /** The buffer holds `before` and then `text` and a NUL; the offset is somewhere in `text`. */
    ghost predicate Holds(before: Bytes, text: Bytes)
      reads this`offset, this`buffer, buffer
    {
      && |before| <= offset <= |before| + |text| < buffer.Length
      && buffer[..|before| + |text|] == before + text
      && buffer[|before| + |text|] == 0
    }

    /** ensure: room for `needed` more bytes and one to spare, growing the buffer if allowed.  Of the bytes
        in it those up to the offset, and the one there, are kept whichever way it grows. */
    method Ensure(needed: nat) returns (ok: bool)
      requires Valid()
      modifies this`buffer
      ensures ok <==> offset + needed + 1 <= old(Limit())
      ensures ok ==> Valid() && Limit() == old(Limit()) && offset + needed + 1 <= buffer.Length
      ensures buffer == old(buffer) || (!noalloc && fresh(buffer))
      ensures offset <= buffer.Length && buffer[..offset] == old(buffer[..offset])
      ensures old(buffer.Length) > 0 ==> offset < buffer.Length && buffer[offset] == old(buffer[offset])
    {
      if buffer.Length > 0 && offset >= buffer.Length {
        return false;
      }
      if needed > INT_MAX {
        return false;
      }
      var total := needed + offset + 1;
      if total <= buffer.Length {
        return true;
      }
      if noalloc {
        return false;
      }
      var size := total * 2;
      if total > INT_MAX / 2 {
        if total > INT_MAX {
          return false;
        }
        size := INT_MAX;
      }
      var grown := new Byte[size](i requires 0 <= i reads this, buffer =>
                                    if i <= offset && i < buffer.Length then buffer[i] else 0);
      assert grown[..offset] == buffer[..offset];
      buffer := grown;
      ok := true;
    }

    /** Stores through the pointer `ensure` returned, starting `skip` bytes after the offset. */
    method Store(skip: nat, text: Bytes)
      requires offset + skip + |text| <= buffer.Length
      modifies buffer
      ensures buffer[..offset + skip + |text|] == old(buffer[..offset + skip]) + text
    {
      var start := offset + skip;
      for i := 0 to |text|
        invariant forall k :: 0 <= k < start ==> buffer[k] == old(buffer[k])
        invariant forall k :: start <= k < start + i ==> buffer[k] == text[k - start]
      {
        buffer[start + i] := text[i];
      }
      assert buffer[..start] == old(buffer[..start]);
      assert buffer[start..start + |text|] == text;
      assert buffer[..start + |text|] == buffer[..start] + buffer[start..start + |text|];
    }

    /** update_offset: the offset moves to the terminator, found by strlen. */
    method UpdateOffset(ghost before: Bytes, ghost text: Bytes)
      requires Holds(before, text) && 0 !in text
      modifies this`offset
      ensures offset == |before| + |text| && buffer[..offset] == before + text
    {
      ghost var end := |before| + |text|;
      assert forall k :: |before| <= k < end ==> buffer[..end][k] == text[k - |before|];
      while buffer[offset] != 0
        invariant |before| <= offset <= |before| + |text|
        decreases |before| + |text| - offset
      {
        offset := offset + 1;
      }
    }

    /** The strcpy of a fixed word after an `ensure` for it and its terminator. */
    method PrintWord(word: Bytes) returns (ok: bool)
      requires Valid()
      modifies this, buffer
      ensures ok <==> old(offset) + |word| + 2 <= old(Limit())
      ensures ok ==> Done(old(buffer[..offset]), word, old(Limit()), old(depth)) && offset == old(offset)
      ensures buffer == old(buffer) || (!noalloc && fresh(buffer))
    {
      ok := Ensure(|word| + 1);
      if ok {
        ghost var before := buffer[..offset];
        assert before == old(buffer[..offset]);
        Store(0, word + [0]);
        TerminatedPrefix(buffer[..offset + |word| + 1], before, word);
      }
    }

    /** What a successful print leaves behind. */
    ghost predicate Done(before: Bytes, text: Bytes, limit: nat, depthBefore: nat)
      reads this, buffer
    {
      Valid() && Limit() == limit && depth == depthBefore && Holds(before, text)
    }

    /** One byte of a string, escaped if need be; sprintf's own NUL is overwritten later. */
    method StoreByte(skip: nat, b: Byte) returns (width: nat)
      requires offset + skip + |EscapedByte(b)| < buffer.Length
      modifies buffer
      ensures width == |EscapedByte(b)|
      ensures buffer[..offset + skip + width] == old(buffer[..offset + skip]) + EscapedByte(b)
    {
      if b > 31 && b != QUOTE && b != BACKSLASH {
        Store(skip, [b]);
        width := 1;
      } else if ShortEscape(b) != 0 {
        Store(skip, [BACKSLASH, ShortEscape(b)]);
        width := 2;
      } else {
        Store(skip, [BACKSLASH, 117, 48, 48, HexDigit(b / 16), HexDigit(b % 16)]);
        buffer[offset + skip + 6] := 0;
        width := 6;
      }
    }

    /** The copying loop of print_string_ptr. */
    method StoreEscaped(skip: nat, s: CString)
      requires offset + skip + |EscapedText(s)| < buffer.Length
      modifies buffer
      ensures buffer[..offset + skip + |EscapedText(s)|] == old(buffer[..offset + skip]) + EscapedText(s)
    {
      hide EscapedText, EscapedByte;
      var out: nat := skip;
      ghost var before := buffer[..offset + skip];
      assert s[0..] == s;
      for i := 0 to |s|
        invariant skip <= out && offset + out + |EscapedText(s[i..])| < buffer.Length
        invariant buffer[..offset + out] + EscapedText(s[i..]) == before + EscapedText(s)
      {
        ghost var here := buffer[..offset + out];
        EscapedStep(s, i);
        var width := StoreByte(out, s[i]);
        out := out + width;
        assert here + (EscapedByte(s[i]) + EscapedText(s[i + 1..])) ==
               here + EscapedByte(s[i]) + EscapedText(s[i + 1..]);
      }
      EscapedEnd(s);
    }

    /** The part of print_string_ptr after `ensure`: the quotes, what is between them, and the NUL. */
    method StoreString(s: CString, extra: nat)
      requires |s| + extra == |EscapedText(s)| && offset + |EscapedText(s)| + 2 < buffer.Length
      modifies buffer
      ensures buffer[..offset + |EscapedText(s)| + 3] == old(buffer[..offset]) + (StringText(s) + [0])
    {
      hide EscapedText;
      var length := |s| + extra;
      ghost var before := buffer[..offset];
      Store(0, [QUOTE]);
      if extra == 0 {
        NothingToEscape(s);
        Store(1, s);
      } else {
        StoreEscaped(1, s);
      }
      Store(length + 1, [QUOTE, 0]);
      assert before + [QUOTE] + EscapedText(s) + [QUOTE, 0] == before + (StringText(s) + [0]);
    }

    /** print_string_ptr */
    method PrintString(s: CString) returns (ok: bool)
      requires Valid()
      modifies this, buffer
      ensures ok <==> old(offset) + |StringText(s)| + 2 <= old(Limit())
      ensures ok ==> Done(old(buffer[..offset]), StringText(s), old(Limit()), old(depth))
      ensures buffer == old(buffer) || (!noalloc && fresh(buffer))
    {
      hide EscapedText;
      var extra := CountEscapes(s);
      ok := Ensure(|s| + extra + 3);
      if ok {
        ghost var before := buffer[..offset];
        assert before == old(buffer[..offset]);
        StoreString(s, extra);
        TerminatedPrefix(buffer[..offset + |StringText(s)| + 1], before, StringText(s));
      }
    }

    /** print_number, for a number that "%d" renders; the offset moves past it. */
    method PrintNumber(d: real) returns (ok: bool)
      requires Valid() && IsInt32(d)
      modifies this, buffer
      ensures ok <==> old(offset) + |IntText(d.Floor)| + 2 <= old(Limit())
      ensures ok ==> Done(old(buffer[..offset]), IntText(d.Floor), old(Limit()), old(depth))
      ensures buffer == old(buffer) || (!noalloc && fresh(buffer))
    {
      hide IntText;
      var number := IntText(d.Floor);
      ok := PrintWord(number);
      if ok {
        offset := offset + |number|;
      }
    }

    /** An `ensure` for `needed` bytes, the bytes of `text`, a NUL if wanted, and the offset moved on. */
    method Emit(text: Bytes, needed: nat, terminate: bool) returns (ok: bool)
      requires Valid() && |text| <= needed && (terminate ==> |text| < needed)
      modifies this, buffer
      ensures ok <==> old(offset) + needed + 1 <= old(Limit())
      ensures ok ==> Valid() && Limit() == old(Limit()) && depth == old(depth)
      ensures ok ==> buffer[..offset] == old(buffer[..offset]) + text
      ensures buffer == old(buffer) || (!noalloc && fresh(buffer))
    {
      ok := Ensure(needed);
      if ok {
        assert buffer[..offset] == old(buffer[..offset]);
        Store(0, text);
        if terminate {
          buffer[offset + |text|] := 0;
        }
        offset := offset + |text|;
      }
    }

    /** A print followed by update_offset. */
    method PrintValueAndAdvance(v: Value) returns (ok: bool)
      requires Valid() && IntOnly(v)
      modifies this, buffer
      ensures ok <==> old(offset) + |ValueText(v, format, old(depth))| + 2 <= old(Limit())
      ensures ok ==> Valid() && Limit() == old(Limit()) && depth == old(depth)
      ensures ok ==> buffer[..offset] == old(buffer[..offset]) + ValueText(v, format, old(depth))
      ensures buffer == old(buffer) || (!noalloc && fresh(buffer))
      decreases v, 2
    {
      hide ValueText;
      ghost var before, text := buffer[..offset], ValueText(v, format, depth);
      TextHasNoNul(v, format, depth);
      ok := PrintValue(v);
      if ok {
        UpdateOffset(before, text);
      }
    }

    /** print_value */
    method PrintValue(v: Value) returns (ok: bool)
      requires Valid() && IntOnly(v)
      modifies this, buffer
      ensures ok <==> old(offset) + |ValueText(v, format, old(depth))| + 2 <= old(Limit())
      ensures ok ==> Done(old(buffer[..offset]), ValueText(v, format, old(depth)), old(Limit()), old(depth))
      ensures buffer == old(buffer) || (!noalloc && fresh(buffer))
      decreases v, 1
    {
      hide ItemsText, MembersText;
      match v
      case Null => ok := PrintWord(NULL_TEXT);
      case False => ok := PrintWord(FALSE_TEXT);
      case True => ok := PrintWord(TRUE_TEXT);
      case Number(d) => ok := PrintNumber(d);
      case String(s) => ok := PrintString(s);
      case Array(items) => ok := PrintArray(items);
      case Object(members) => ok := PrintObject(members);
    }

    lemma HoldsLonger(before: Bytes, first: Bytes, second: Bytes)
      requires Holds(before + first, second)
      ensures Holds(before, first + second)
    {
      assert before + first + second == before + (first + second);
    }

    /** The closing bracket, which also closes a level of nesting. */
    method Close(ghost before: Bytes, ghost first: Bytes, word: Bytes) returns (ok: bool)
      requires Valid() && depth >= 1 && buffer[..offset] == before + first
      modifies this, buffer
      ensures ok <==> old(offset) + |word| + 2 <= old(Limit())
      ensures ok ==> Done(before, first + word, old(Limit()), old(depth) - 1)
      ensures buffer == old(buffer) || (!noalloc && fresh(buffer))
    {
      ok := PrintWord(word);
      if ok {
        HoldsLonger(before, first, word);
        depth := depth - 1;
      }
    }

    /** print_array */
    method PrintArray(items: Items) returns (ok: bool)
      requires Valid() && IntOnlyItems(items)
      modifies this, buffer
      ensures ok <==> old(offset) + |ValueText(Array(items), format, old(depth))| + 2 <= old(Limit())
      ensures ok ==> Done(old(buffer[..offset]), ValueText(Array(items), format, old(depth)), old(Limit()), old(depth))
      ensures buffer == old(buffer) || (!noalloc && fresh(buffer))
      decreases items, 4
    {
      hide ItemsText, ValueText, Done;
      ArrayText(items, format, depth);
      ghost var before := buffer[..offset];
      ok := Emit([LBRACKET], 1, false);
      if !ok {
        return;
      }
      depth := depth + 1;
      ok := PrintItems(items);
      if !ok {
        return;
      }
      ghost var inner := ItemsText(items, format, depth);
      assert before + [LBRACKET] + inner == before + ([LBRACKET] + inner);
      ok := Close(before, [LBRACKET] + inner, [RBRACKET]);
    }

    /** The element loop of print_array. */
    method PrintItems(items: Items) returns (ok: bool)
      requires Valid() && IntOnlyItems(items)
      modifies this, buffer
      ensures old(offset) + |ItemsText(items, format, old(depth))| + 2 <= old(Limit()) ==> ok
      ensures ok ==> Valid() && Limit() == old(Limit()) && depth == old(depth)
      ensures ok ==> buffer[..offset] == old(buffer[..offset]) + ItemsText(items, format, old(depth))
      ensures buffer == old(buffer) || (!noalloc && fresh(buffer))
      decreases items, 3
    {
      hide ItemsText, ItemText;
      ghost var all := buffer[..offset] + ItemsText(items, format, depth);
      var current := items;
      while current.Item?
        invariant Valid() && Limit() == old(Limit()) && depth == old(depth)
        invariant buffer == old(buffer) || (!noalloc && fresh(buffer))
        invariant current == items || current < items
        invariant IntOnlyItems(current)
        invariant buffer[..offset] + ItemsText(current, format, depth) == all
        decreases current
      {
        ghost var before := buffer[..offset];
        ItemsUnfold(current, format, depth);
        ok := PrintItem(current);
        if !ok {
          return;
        }
        assert before + (ItemText(current, format, depth) + ItemsText(current.rest, format, depth)) ==
               before + ItemText(current, format, depth) + ItemsText(current.rest, format, depth);
        current := current.rest;
      }
      ok := true;
      NoItemsText(format, depth);
    }

    /** One turn of that loop: the element, and a comma if another follows. */
    method PrintItem(items: Items) returns (ok: bool)
      requires Valid() && items.Item? && IntOnlyItems(items)
      modifies this, buffer
      ensures old(offset) + |ItemText(items, format, old(depth))| + 2 <= old(Limit()) ==> ok
      ensures ok ==> Valid() && Limit() == old(Limit()) && depth == old(depth)
      ensures ok ==> buffer[..offset] == old(buffer[..offset]) + ItemText(items, format, old(depth))
      ensures buffer == old(buffer) || (!noalloc && fresh(buffer))
      decreases items, 2
    {
      hide ValueText;
      ghost var before := buffer[..offset];
      ok := PrintValueAndAdvance(items.head);
      if ok && items.rest.Item? {
        var comma := Comma(format);
        ok := Emit(comma, |comma| + 1, true);
        ghost var text := ValueText(items.head, format, depth);
        assert before + text + comma == before + (text + comma);
      }
    }

    /** print_object */
    method PrintObject(members: Members) returns (ok: bool)
      requires Valid() && IntOnlyMembers(members)
      modifies this, buffer
      ensures ok <==> old(offset) + |ValueText(Object(members), format, old(depth))| + 2 <= old(Limit())
      ensures ok ==> Done(old(buffer[..offset]), ValueText(Object(members), format, old(depth)), old(Limit()),
                          old(depth))
      ensures buffer == old(buffer) || (!noalloc && fresh(buffer))
      decreases members, 4
    {
      hide MembersText, ValueText, Done, ClosingText, Tabs;
      ObjectText(members, format, depth);
      ghost var before := buffer[..offset];
      var open := if format then [LBRACE, NEWLINE] else [LBRACE];
      ok := Emit(open, |open| + 1, false);
      if !ok {
        return;
      }
      depth := depth + 1;
      ok := PrintMembers(members);
      if !ok {
        return;
      }
      ghost var inner := MembersText(members, format, depth);
      assert before + open + inner == before + (open + inner);
      var close := (if format then Tabs(depth - 1) else []) + [RBRACE];
      ok := Close(before, open + inner, close);
    }

    /** The loop of print_object. */
    method PrintMembers(members: Members) returns (ok: bool)
      requires Valid() && IntOnlyMembers(members)
      modifies this, buffer
      ensures old(offset) + |MembersText(members, format, old(depth))| + 2 <= old(Limit()) ==> ok
      ensures ok ==> Valid() && Limit() == old(Limit()) && depth == old(depth)
      ensures ok ==> buffer[..offset] == old(buffer[..offset]) + MembersText(members, format, old(depth))
      ensures buffer == old(buffer) || (!noalloc && fresh(buffer))
      decreases members, 3
    {
      hide MembersText, MemberText;
      ghost var all := buffer[..offset] + MembersText(members, format, depth);
      var current := members;
      while current.Member?
        invariant Valid() && Limit() == old(Limit()) && depth == old(depth)
        invariant buffer == old(buffer) || (!noalloc && fresh(buffer))
        invariant current == members || current < members
        invariant IntOnlyMembers(current)
        invariant buffer[..offset] + MembersText(current, format, depth) == all
        decreases current
      {
        ghost var before := buffer[..offset];
        MembersUnfold(current, format, depth);
        ok := PrintMember(current);
        if !ok {
          return;
        }
        assert before + (MemberText(current, format, depth) + MembersText(current.more, format, depth)) ==
               before + MemberText(current, format, depth) + MembersText(current.more, format, depth);
        current := current.more;
      }
      ok := true;
      NoMembersText(format, depth);
    }

    /** One turn of that loop: indentation, name and colon, then the value and what separates it
        from the next. */
    method PrintMember(member: Members) returns (ok: bool)
      requires Valid() && member.Member? && IntOnlyMembers(member)
      modifies this, buffer
      ensures old(offset) + |MemberText(member, format, old(depth))| + 2 <= old(Limit()) ==> ok
      ensures ok ==> Valid() && Limit() == old(Limit()) && depth == old(depth)
      ensures ok ==> buffer[..offset] == old(buffer[..offset]) + MemberText(member, format, old(depth))
      ensures buffer == old(buffer) || (!noalloc && fresh(buffer))
      decreases member, 2
    {
      hide ValueText, NameText;
      ghost var before, name := buffer[..offset], NameText(member.key, format, depth);
      ok := PrintName(member.key);
      if !ok {
        return;
      }
      ok := PrintValueAndAdvance(member.value);
      if !ok {
        return;
      }
      var after := Separator(member, format);
      ok := Emit(after, |after| + 1, true);
      ghost var value := ValueText(member.value, format, depth);
      assert before + name + value + after == before + (name + value + after);
    }

    method PrintName(key: CString) returns (ok: bool)
      requires Valid()
      modifies this, buffer
      ensures old(offset) + |NameText(key, format, old(depth))| + 1 <= old(Limit()) ==> ok
      ensures ok ==> Valid() && Limit() == old(Limit()) && depth == old(depth)
      ensures ok ==> buffer[..offset] == old(buffer[..offset]) + NameText(key, format, old(depth))
      ensures buffer == old(buffer) || (!noalloc && fresh(buffer))
    {
      hide StringText, Tabs;
      ghost var before := buffer[..offset];
      var tabs := if format then Tabs(depth) else [];
      if format {
        TabsLength(depth);
        ok := Emit(tabs, depth, false);
        if !ok {
          return;
        }
      }
      assert buffer[..offset] == before + tabs;
      ok := PrintStringAndAdvance(key);
      if !ok {
        return;
      }
      var colon := if format then [COLON, TAB] else [COLON];
      ok := Emit(colon, |colon|, false);
      assert before + tabs + StringText(key) + colon == before + (tabs + StringText(key) + colon);
    }

    method PrintStringAndAdvance(s: CString) returns (ok: bool)
      requires Valid()
      modifies this, buffer
      ensures ok <==> old(offset) + |StringText(s)| + 2 <= old(Limit())
      ensures ok ==> Valid() && Limit() == old(Limit()) && depth == old(depth)
      ensures ok ==> buffer[..offset] == old(buffer[..offset]) + StringText(s)
      ensures buffer == old(buffer) || (!noalloc && fresh(buffer))
    {
      ghost var before := buffer[..offset];
      EscapedHasNoNul(s);
      hide EscapedText;
      ok := PrintString(s);
      if ok {
        UpdateOffset(before, StringText(s));
      }
    }
  }

  /** The indentation, name and colon of a member. */
  ghost function NameText(key: CString, fmt: bool, depth: nat): Bytes {
    (if fmt then Tabs(depth) else []) + StringText(key) + (if fmt then [COLON, TAB] else [COLON])
  }

  function Separator(member: Members, fmt: bool): Bytes
    requires member.Member?
  {
    (if member.more.Member? then [COMMA] else []) + (if fmt then [NEWLINE] else [])
  }

  /** The text of one member and what separates it from the next. */
  ghost function MemberText(member: Members, fmt: bool, depth: nat): Bytes
    requires member.Member? && IntOnlyMembers(member)
  {
    NameText(member.key, fmt, depth) + ValueText(member.value, fmt, depth) + Separator(member, fmt)
  }

  lemma TabsLength(n: nat)
    ensures |Tabs(n)| == n
  {
  }

  lemma MembersUnfold(members: Members, fmt: bool, depth: nat)
    requires members.Member? && IntOnlyMembers(members)
    ensures MembersText(members, fmt, depth) == MemberText(members, fmt, depth) + MembersText(members.more, fmt, depth)
  {
    hide ValueText, StringText, Tabs;
    MemberReassociated(Layout(fmt, Tabs(depth)), StringText(members.key), Layout(fmt, [TAB]),
                       ValueText(members.value, fmt, depth),
                       if members.more.Member? then [COMMA] else [], Layout(fmt, [NEWLINE]),
                       MembersText(members.more, fmt, depth));
    assert [COLON] + Layout(fmt, [TAB]) == if fmt then [COLON, TAB] else [COLON];
  }

  lemma MemberReassociated(tabs: Bytes, key: Bytes, gap: Bytes, value: Bytes, comma: Bytes, line: Bytes, more: Bytes)
    ensures tabs + (key + ([COLON] + (gap + (value + (comma + (line + more)))))) ==
            tabs + key + ([COLON] + gap) + value + (comma + line) + more
  {
  }

  lemma NoMembersText(fmt: bool, depth: nat)
    ensures MembersText(NoMembers, fmt, depth) == []
  {
  }

  lemma ArrayText(items: Items, fmt: bool, depth: nat)
    requires IntOnlyItems(items)
    ensures ValueText(Array(items), fmt, depth) == [LBRACKET] + ItemsText(items, fmt, depth + 1) + [RBRACKET]
  {
    hide ItemsText;
  }

  lemma ObjectText(members: Members, fmt: bool, depth: nat)
    requires IntOnlyMembers(members)
    ensures ValueText(Object(members), fmt, depth) ==
            (if fmt then [LBRACE, NEWLINE] else [LBRACE]) + MembersText(members, fmt, depth + 1) +
            ((if fmt then Tabs(depth) else []) + [RBRACE])
  {
    hide MembersText, Tabs;
    assert [LBRACE] + Layout(fmt, [NEWLINE]) == if fmt then [LBRACE, NEWLINE] else [LBRACE];
  }

  function Comma(fmt: bool): Bytes {
    if fmt then [COMMA, SPACE] else [COMMA]
  }

  /** The text of one element and the comma after it. */
  ghost function ItemText(items: Items, fmt: bool, depth: nat): Bytes
    requires items.Item? && IntOnlyItems(items)
  {
    if items.rest.NoItems? then ValueText(items.head, fmt, depth) else ValueText(items.head, fmt, depth) + Comma(fmt)
  }

  lemma ItemsUnfold(items: Items, fmt: bool, depth: nat)
    requires items.Item? && IntOnlyItems(items)
    ensures ItemsText(items, fmt, depth) == ItemText(items, fmt, depth) + ItemsText(items.rest, fmt, depth)
  {
    hide ValueText;
    if items.rest.Item? {
      assert [COMMA] + Layout(fmt, [SPACE]) == Comma(fmt);
      assert [COMMA] + (Layout(fmt, [SPACE]) + ItemsText(items.rest, fmt, depth)) ==
             [COMMA] + Layout(fmt, [SPACE]) + ItemsText(items.rest, fmt, depth);
    }
  }

  lemma NoItemsText(fmt: bool, depth: nat)
    ensures ItemsText(NoItems, fmt, depth) == []
  {
  }

  /** The counting loop of print_string_ptr. */
  method CountEscapes(s: CString) returns (extra: nat)
    ensures |s| + extra == |EscapedText(s)|
  {
    hide EscapedText;
    extra := 0;
    assert s[0..] == s;
    for i := 0 to |s|
      invariant i + extra + |EscapedText(s[i..])| == |EscapedText(s)|
    {
      EscapedStep(s, i);
      if ShortEscape(s[i]) != 0 {
        extra := extra + 1;
      } else if s[i] < 32 {
        extra := extra + 5;
      }
    }
    EscapedEnd(s);
  }

  lemma TerminatedPrefix(all: Bytes, before: Bytes, text: Bytes)
    requires all == before + (text + [0])
    ensures all[..|before| + |text|] == before + text && all[|before| + |text|] == 0
  {
    assert before + (text + [0]) == before + text + [0];
  }

  lemma EscapedStep(s: CString, i: nat)
    requires i < |s|
    ensures EscapedText(s[i..]) == EscapedByte(s[i]) + EscapedText(s[i + 1..])
  {
    assert s[i..][1..] == s[i + 1..];
  }

  lemma EscapedEnd(s: CString)
    ensures EscapedText(s[|s|..]) == []
  {
  }

  lemma {:induction false} NothingToEscape(s: CString)
    ensures |EscapedText(s)| >= |s|
    ensures |EscapedText(s)| == |s| ==> EscapedText(s) == s
  {
    if s != [] {
      NothingToEscape(s[1..]);
      assert s == [s[0]] + s[1..];
    }
  }

  /** cJSON_PrintPreallocated: the caller's array receives exactly the text and a NUL, and this
      works exactly when it is at least two bytes longer than the text. */
  method PrintPreallocated(v: Value, space: array<Byte>, format: bool) returns (ok: bool)
    requires IntOnly(v) && space.Length <= INT_MAX
    modifies space
    ensures ok <==> |ValueText(v, format, 0)| + 2 <= space.Length
    ensures ok ==> space[..|ValueText(v, format, 0)| + 1] == ValueText(v, format, 0) + [0]
  {
    hide ValueText;
    var p := new PrintBuffer(space, true, format);
    ok := p.PrintValue(v);
    ghost var text := ValueText(v, format, 0);
    assert [] + text == text;
    assert ok ==> space[..|text| + 1] == space[..|text|] + [space[|text|]];
  }

  /** cJSON_Print, cJSON_PrintUnformatted and cJSON_PrintBuffered with allocation succeeding: the
      text comes out whole from any first buffer size, unless it is too long for an int. */
  method Print(v: Value, prebuffer: nat, format: bool) returns (ok: bool, text: Bytes)
    requires IntOnly(v) && prebuffer <= INT_MAX
    ensures ok <==> |ValueText(v, format, 0)| + 2 <= INT_MAX
    ensures ok ==> text == ValueText(v, format, 0)
  {
    hide ValueText;
    var space := new Byte[prebuffer];
    var p := new PrintBuffer(space, false, format);
    ok := p.PrintValueAndAdvance(v);
    text := if ok then p.buffer[..p.offset] else [];
    assert [] + ValueText(v, format, 0) == ValueText(v, format, 0);
  }
}
