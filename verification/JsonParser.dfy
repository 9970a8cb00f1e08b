/** cJSON's parser as it runs: an offset and a depth move over a fixed text.  Every method
    is proved against the function of JsonGrammar or JsonLiteral it computes. */
module JsonParser {
  import opened JsonValue
  import opened JsonUnicode
  import opened JsonLiteral
  import opened JsonGrammar

  /** The number the first `n` of four hex digits spell. */
  ghost function HexPrefix(c: Bytes, at: nat, n: nat): nat
    requires at + n <= |c| && forall k :: at <= k < at + n ==> IsHex(c[k])
  {
    if n == 0 then 0 else HexPrefix(c, at, n - 1) * 16 + HexValue(c[at + n - 1])
  }

  /** parse_hex4: shift in one digit at a time, give up with 0 at the first bad one. */
  method ParseHex4(c: Bytes, at: nat) returns (h: nat)
    requires at + 4 <= |c|
    ensures h == Hex4(c, at)
  {
    h := 0;
    for i := 0 to 4
      invariant forall k :: at <= k < at + i ==> IsHex(c[k])
      invariant h == HexPrefix(c, at, i) * (if i < 4 then 16 else 1)
    {
      if !IsHex(c[at + i]) {
        return 0;
      }
      h := h + HexValue(c[at + i]);
      if i < 3 {
        Powers();
        h := Shl(h, 4);
      }
    }
    HexSpelled(c, at);
  }

  lemma HexSpelled(c: Bytes, at: nat)
    requires at + 4 <= |c| && forall k :: at <= k < at + 4 ==> IsHex(c[k])
    ensures HexPrefix(c, at, 4) == Hex4(c, at)
  {
    hide HexValue;
    assert HexPrefix(c, at, 1) == HexValue(c[at]);
    assert HexPrefix(c, at, 2) == HexPrefix(c, at, 1) * 16 + HexValue(c[at + 1]);
    assert HexPrefix(c, at, 3) == HexPrefix(c, at, 2) * 16 + HexValue(c[at + 2]);
  }

  /** The encoding loop of utf16_literal_to_utf8: continuation bytes from the back, six bits each,
      then the lead byte. */
  method WriteUtf8(codepoint: nat, output: array<Byte>, at: nat) returns (length: nat)
    requires codepoint <= 0x10FFFF && at + |Utf8(codepoint)| <= output.Length
    modifies output
    ensures length == |Utf8(codepoint)|
    ensures output[..at + length] == old(output[..at]) + Utf8(codepoint)
  {
    hide Utf8, Shifted, BitAnd, BitOr, Shr;
    var mark := 0;
    if codepoint < 0x80 {
      length := 1;
    } else if codepoint < 0x800 {
      length, mark := 2, 0xC0;
    } else if codepoint < 0x10000 {
      length, mark := 3, 0xE0;
    } else {
      length, mark := 4, 0xF0;
    }
    var cp, position := codepoint, length - 1;
    ghost var text := Utf8(codepoint);
    Utf8Tail(codepoint);
    ShiftedNext(codepoint, 0);
    while position > 0
      invariant 0 <= position < length
      invariant cp == Shifted(codepoint, length - 1 - position)
      invariant forall k :: at + position < k < at + length ==> output[k] == text[k - at]
      invariant forall k :: 0 <= k < at ==> output[k] == old(output[k])
    {
      ContinuationByte(cp);
      ShrSix(cp);
      assert text[position] == 0x80 + cp % 64;
      ShiftedNext(codepoint, length - 1 - position);
      output[at + position] := BitAnd(BitOr(cp, 0x80), 0xBF);
      cp := Shr(cp, 6);
      position := position - 1;
    }
    assert text[0] == mark + cp;
    if length > 1 {
      LeadFits(codepoint, length, mark);
      LeadByte(cp, mark);
      output[at] := BitAnd(BitOr(cp, mark), 0xFF);
    } else {
      AsciiByte(cp);
      output[at] := BitAnd(cp, 0x7F);
    }
    assert output[at..at + length] == text;
    assert output[..at] == old(output[..at]);
    assert output[..at + length] == output[..at] + output[at..at + length];
  }

  /** A code point with its `k` lowest six-bit groups dropped. */
  ghost function Shifted(cp: nat, k: nat): nat {
    if k == 0 then cp else Shifted(cp, k - 1) / 64
  }

  lemma ShiftedNext(cp: nat, k: nat)
    ensures Shifted(cp, 0) == cp && Shifted(cp, k + 1) == Shifted(cp, k) / 64
  {
  }

  /** What is left for the first byte fits beside its mark. */
  lemma LeadFits(cp: nat, length: nat, mark: nat)
    requires 0x80 <= cp <= 0x10FFFF
    requires if cp < 0x800 then length == 2 && mark == 0xC0
             else if cp < 0x10000 then length == 3 && mark == 0xE0 else length == 4 && mark == 0xF0
    ensures var lead := Shifted(cp, length - 1);
            (mark == 0xC0 && lead < 0x20) || (mark == 0xE0 && lead < 0x10) || (mark == 0xF0 && lead < 0x08)
  {
    assert Shifted(cp, 1) == cp / 64;
    assert Shifted(cp, 2) == cp / 64 / 64 == cp / 4096;
    assert Shifted(cp, 3) == cp / 4096 / 64 == cp / 262144;
  }

  /** Byte `p` of an encoding holds the group that is `|text| - 1 - p` from the end. */
  lemma Utf8Tail(cp: nat)
    requires cp <= 0x10FFFF
    ensures var n := |Utf8(cp)|;
            && n == (if cp < 0x80 then 1 else if cp < 0x800 then 2 else if cp < 0x10000 then 3 else 4)
            && (forall p :: 1 <= p < n ==> Utf8(cp)[p] == 0x80 + Shifted(cp, n - 1 - p) % 64)
            && Utf8(cp)[0] == Shifted(cp, n - 1) +
               (if n == 1 then 0 else if n == 2 then 0xC0 else if n == 3 then 0xE0 else 0xF0)
  {
    assert Shifted(cp, 1) == cp / 64;
    assert Shifted(cp, 2) == cp / 64 / 64 == cp / 4096;
    assert Shifted(cp, 3) == cp / 4096 / 64 == cp / 262144;
  }

  /** utf16_literal_to_utf8, writing at `at`; the result is the input length, 0 for failure. */
  method Utf16LiteralToUtf8(c: Bytes, i: nat, end: nat, output: array<Byte>, at: nat)
    returns (length: nat, written: nat)
    requires i <= end <= |c|
    requires at + |Utf16Literal(c, i, end).bytes| <= output.Length
    modifies output
    ensures length == Utf16Literal(c, i, end).length
    ensures written == |Utf16Literal(c, i, end).bytes|
    ensures output[..at + written] == old(output[..at]) + Utf16Literal(c, i, end).bytes
  {
    hide Hex4, Utf8, BitAnd, BitOr, Shl;
    written := 0;
    if end - i < 6 {
      return 0, 0;
    }
    var first := ParseHex4(c, i + 2);
    if 0xDC00 <= first <= 0xDFFF {
      return 0, 0;
    }
    var codepoint := first;
    length := 6;
    if 0xD800 <= first <= 0xDBFF {
      if end - (i + 6) < 6 {
        return 0, 0;
      }
      if c[i + 6] != BACKSLASH || c[i + 7] != 117 {
        return 0, 0;
      }
      var second := ParseHex4(c, i + 8);
      if second < 0xDC00 || second > 0xDFFF {
        return 0, 0;
      }
      PairBits(first, second);
      codepoint := 0x10000 + BitOr(Shl(BitAnd(first, 0x3FF), 10), BitAnd(second, 0x3FF));
      length := 12;
    }
    assert Utf16Literal(c, i, end) == Literal(length, Utf8(codepoint));
    written := WriteUtf8(codepoint, output, at);
  }

  /** The unescaping pass of parse_string.  Each write is inside the array the first pass sized. */
  method UnescapeInto(c: Bytes, start: nat, end: nat, output: array<Byte>) returns (ok: bool, written: nat)
    requires 1 <= start <= end < |c| && output.Length == Allocation(c, start, end)
    modifies output
    ensures ok <==> Unescape(c, start, end).Good?
    ensures ok ==> written < output.Length && output[..written] == Unescape(c, start, end).bytes
  {
    hide Unescape, Utf16Literal, Prefixed, Escapes, Allocation;
    NothingWritten(c, start, end);
    var input := start;
    written := 0;
    while input < end
      invariant start <= input <= end + 1 && written + Escapes(c, start, input) <= input - start
      invariant written < output.Length
      invariant Unescape(c, start, end) == Prefixed(output[..written], Unescape(c, input, end))
    {
      ghost var done := output[..written];
      UnescapeStep(c, start, input, end, done);
      if c[input] != BACKSLASH {
        StepFits(c, start, input, 1);
        output[written] := c[input];
        assert output[..written + 1] == done + [c[input]];
        input, written := input + 1, written + 1;
      } else if c[input + 1] == 117 {
        UnicodeRoom(c, start, input, end, written);
        var length, used := Utf16LiteralToUtf8(c, input, end, output, written);
        if length == 0 {
          return false, written;
        }
        input, written := input + length, written + used;
      } else {
        var meaning := ShortMeaning(c[input + 1]);
        if meaning == -1 {
          return false, written;
        }
        StepFits(c, start, input, 2);
        output[written] := meaning;
        assert output[..written + 1] == done + [meaning];
        input, written := input + 2, written + 1;
      }
      RoomLeft(c, start, input, end, written);
    }
    UnescapeDone(c, start, input, end, output[..written]);
    ok := true;
  }

  /** The copying loop of parse_number. */
  method CopyNumber(c: Bytes, off: nat, copy: array<Byte>) returns (i: nat)
    requires off <= |c| && copy.Length == 64
    modifies copy
    ensures i < 64 && off + i == NumberEnd(c, off, 63) && copy[..i] == c[off..off + i]
  {
    hide NumberEnd;
    i := 0;
    while i < 63 && off + i < |c| && IsNumberByte(c[off + i])
      invariant i <= 63 && off + i <= |c|
      invariant copy[..i] == c[off..off + i]
      invariant NumberEnd(c, off, 63) == NumberEnd(c, off + i, 63 - i)
    {
      NumberEndStep(c, off + i, 63 - i);
      copy[i] := c[off + i];
      assert copy[..i + 1] == copy[..i] + [c[off + i]];
      i := i + 1;
    }
    NumberEndStep(c, off + i, 63 - i);
  }

  lemma NumberEndStep(c: Bytes, i: nat, room: nat)
    requires i <= |c|
    ensures NumberEnd(c, i, room) ==
            if room > 0 && i < |c| && IsNumberByte(c[i]) then NumberEnd(c, i + 1, room - 1) else i
  {
  }

  /** A text with its terminator, which is all that cJSON_Parse hands to the buffer. */
  type Terminated = c: Bytes | c != [] && c[|c| - 1] == 0 witness [0]

  /** The parse_buffer. */
  class ParseBuffer {
    const content: Terminated
    var offset: nat
    var depth: nat

    constructor (text: CString)
      ensures content == text + [0] && offset == 0 && depth == 0
    {
      content := text + [0];
      offset := 0;
      depth := 0;
    }

    method SkipUtf8Bom()
      requires offset == 0
      modifies this
      ensures offset == AfterBom(content) && depth == old(depth)
    {
      if 4 < |content| && content[..3] == BOM {
        offset := offset + 3;
      }
    }

    /** buffer_skip_whitespace */
    method SkipWhitespace()
      modifies this
      ensures offset == SkipBlanks(content, old(offset)) && depth == old(depth)
    {
      if offset >= |content| {
        return;
      }
      while offset < |content| && content[offset] <= 32
        invariant offset <= |content| && depth == old(depth)
        invariant BlankEnd(content, offset) == BlankEnd(content, old(offset))
        decreases |content| - offset
      {
        offset := offset + 1;
      }
      if offset == |content| {
        offset := offset - 1;
      }
    }

    /** parse_number: copy the number bytes aside, then strtod. */
    method ParseNumber() returns (ok: bool, value: Value)
      requires offset < |content|
      modifies this
      ensures Result(ok, value, JsonGrammar.ParseNumber(content, old(offset))) && depth == old(depth)
    {
      hide Strtod, NumberEnd;
      value := Null;
      var copy := new Byte[64];
      var i := CopyNumber(content, offset, copy);
      copy[i] := 0;
      var (number, used) := Strtod(copy[..i]);
      if used == 0 {
        return false, Null;
      }
      value := Number(number);
      offset := offset + used;
      ok := true;
    }

    /** A method's outcome is the one its function gives; on success the offset is past the value. */
    ghost predicate Result<T>(ok: bool, value: T, r: Parsed<T>)
      reads this
    {
      ok == r.Ok? && (ok ==> value == r.value && offset == r.next)
    }

    /** The sizing pass of parse_string, from the byte after the opening quote. */
    method FindEnd() returns (ok: bool, end: nat, skipped: nat)
      requires offset < |content|
      ensures ok <==> LiteralEnd(content, offset + 1) != -1
      ensures ok ==> end == LiteralEnd(content, offset + 1) && skipped == Escapes(content, offset + 1, end)
    {
      end, skipped := offset + 1, 0;
      ghost var stop := LiteralEnd(content, offset + 1);
      while end < |content| && content[end] != QUOTE
        invariant offset + 1 <= end <= |content|
        invariant LiteralEnd(content, end) == LiteralEnd(content, offset + 1)
        invariant stop != -1 ==> Escapes(content, offset + 1, stop) == skipped + Escapes(content, end, stop)
      {
        if content[end] == BACKSLASH {
          if end + 1 >= |content| {
            return false, end, skipped;
          }
          skipped := skipped + 1;
          end := end + 1;
        }
        end := end + 1;
      }
      ok := end < |content|;
    }

    /** parse_string */
    method ParseString() returns (ok: bool, value: CString)
      requires offset < |content|
      modifies this
      ensures Result(ok, value, JsonLiteral.ParseString(content, old(offset))) && depth == old(depth)
    {
      hide Unescape, LiteralEnd, Escapes, UpToNul;
      value := [];
      if content[offset] != QUOTE {
        return false, [];
      }
      var found, end, skipped := FindEnd();
      if !found {
        return false, [];
      }
      NothingWritten(content, offset + 1, end);
      var output := new Byte[(end - offset) - skipped + 1];
      var converted, written := UnescapeInto(content, offset + 1, end, output);
      if !converted {
        return false, [];
      }
      output[written] := 0;
      value := UpToNul(output[..written]);
      offset := end + 1;
      ok := true;
    }

    /** parse_value */
    method ParseValue() returns (ok: bool, value: Value)
      modifies this
      ensures Result(ok, value, JsonGrammar.ParseValue(content, old(offset), old(depth)))
      ensures ok ==> depth == old(depth)
      decreases |content| - offset, 1
    {
      hide JsonGrammar.ParseArray, JsonGrammar.ParseObject, JsonGrammar.ParseNumber, JsonLiteral.ParseString;
      value := Null;
      if offset + 4 <= |content| && content[offset..offset + 4] == NULL_TEXT {
        offset := offset + 4;
        return true, Null;
      }
      if offset + 5 <= |content| && content[offset..offset + 5] == FALSE_TEXT {
        offset := offset + 5;
        return true, False;
      }
      if offset + 4 <= |content| && content[offset..offset + 4] == TRUE_TEXT {
        offset := offset + 4;
        return true, True;
      }
      if offset >= |content| {
        return false, Null;
      }
      if content[offset] == QUOTE {
        var s;
        ok, s := ParseString();
        return ok, String(s);
      }
      if content[offset] == MINUS || IsDigit(content[offset]) {
        ok, value := ParseNumber();
        return;
      }
      if content[offset] == LBRACKET {
        ok, value := ParseArray();
        return;
      }
      if content[offset] == LBRACE {
        ok, value := ParseObject();
        return;
      }
      ok := false;
    }

    /** parse_array */
    method ParseArray() returns (ok: bool, value: Value)
      requires offset < |content|
      modifies this
      ensures Result(ok, value, JsonGrammar.ParseArray(content, old(offset), old(depth)))
      ensures ok ==> depth == old(depth)
      decreases |content| - offset, 0
    {
      hide JsonGrammar.ParseArray, JsonGrammar.ParseItems, SkipBlanks;
      ArrayUnfold(content, offset, depth);
      if depth >= NESTING_LIMIT {
        return false, Null;
      }
      depth := depth + 1;
      offset := offset + 1;
      SkipWhitespace();
      if offset >= |content| {
        return false, Null;
      }
      var items := NoItems;
      if content[offset] != RBRACKET {
        offset := offset - 1;
        ok, items := ParseElements();
        if !ok {
          return false, Null;
        }
      } else {
        offset := offset + 1;
      }
      depth := depth - 1;
      return true, Array(items);
    }

    /** The element loop of parse_array, from the byte before the first element to past the ']'. */
    method ParseElements() returns (ok: bool, items: Items)
      requires offset + 1 < |content|
      modifies this
      ensures Result(ok, items, JsonGrammar.ParseItems(content, old(offset) + 1, old(depth)))
      ensures ok ==> depth == old(depth)
      decreases |content| - offset - 1, 2
    {
      hide JsonGrammar.ParseItems, JsonGrammar.ParseValue, SkipBlanks, Chained, Snoc;
      items := NoItems;
      ghost var all := JsonGrammar.ParseItems(content, offset + 1, depth);
      NothingCollected(all);
      var more := true;
      while more
        invariant old(offset) <= offset < |content| && depth == old(depth)
        invariant more ==> all == Extended(items, JsonGrammar.ParseItems(content, offset + 1, depth))
        invariant !more ==> all == if content[offset] == RBRACKET then Ok(items, offset + 1) else Fail
        decreases more, |content| - offset
      {
        ItemsUnfold(content, offset + 1, depth, items);
        offset := offset + 1;
        SkipWhitespace();
        var parsed, element := ParseValue();
        if !parsed {
          return false, items;
        }
        items := Snoc(items, element);
        SkipWhitespace();
        if offset >= |content| {
          return false, items;
        }
        more := content[offset] == COMMA;
      }
      if content[offset] != RBRACKET {
        return false, items;
      }
      offset := offset + 1;
      ok := true;
    }

    /** parse_object */
    method ParseObject() returns (ok: bool, value: Value)
      requires offset < |content|
      modifies this
      ensures Result(ok, value, JsonGrammar.ParseObject(content, old(offset), old(depth)))
      ensures ok ==> depth == old(depth)
      decreases |content| - offset, 0
    {
      hide JsonGrammar.ParseObject, JsonGrammar.ParseMembers, SkipBlanks;
      ObjectUnfold(content, offset, depth);
      if depth >= NESTING_LIMIT {
        return false, Null;
      }
      depth := depth + 1;
      offset := offset + 1;
      SkipWhitespace();
      if offset >= |content| {
        return false, Null;
      }
      var members := NoMembers;
      if content[offset] != RBRACE {
        offset := offset - 1;
        ok, members := ParsePairs();
        if !ok {
          return false, Null;
        }
      } else {
        offset := offset + 1;
      }
      depth := depth - 1;
      return true, Object(members);
    }

    /** The loop of parse_object, from the byte before the first name to past the '}'. */
    method ParsePairs() returns (ok: bool, members: Members)
      requires offset + 1 < |content|
      modifies this
      ensures Result(ok, members, JsonGrammar.ParseMembers(content, old(offset) + 1, old(depth)))
      ensures ok ==> depth == old(depth)
      decreases |content| - offset - 1, 2
    {
      hide JsonGrammar.ParseMembers, JsonGrammar.ParseValue, JsonLiteral.ParseString, SkipBlanks, ChainedM, SnocM;
      members := NoMembers;
      ghost var all := JsonGrammar.ParseMembers(content, offset + 1, depth);
      NothingCollectedM(all);
      var more := true;
      while more
        invariant old(offset) <= offset < |content| && depth == old(depth)
        invariant more ==> offset + 1 < |content|
        invariant more ==> all == ExtendedM(members, JsonGrammar.ParseMembers(content, offset + 1, depth))
        invariant !more ==> all == if content[offset] == RBRACE then Ok(members, offset + 1) else Fail
        decreases more, |content| - offset
      {
        MembersUnfold(content, offset + 1, depth, members);
        offset := offset + 1;
        SkipWhitespace();
        var named, key := ParseString();
        if !named {
          return false, members;
        }
        SkipWhitespace();
        if offset >= |content| || content[offset] != COLON {
          return false, members;
        }
        offset := offset + 1;
        SkipWhitespace();
        var parsed, element := ParseValue();
        if !parsed {
          return false, members;
        }
        members := SnocM(members, key, element);
        SkipWhitespace();
        if offset >= |content| {
          return false, members;
        }
        more := content[offset] == COMMA;
      }
      if content[offset] != RBRACE {
        return false, members;
      }
      offset := offset + 1;
      ok := true;
    }
  }

  /** cJSON_ParseWithOpts: the value, and where the text after it begins. */
  method Parse(text: CString, requireNullTerminated: bool) returns (ok: bool, value: Value, end: nat)
    ensures var r := if requireNullTerminated then ParseWholeDocument(text) else ParseDocument(text);
            ok == r.Ok? && (ok ==> value == r.value)
    ensures ok && !requireNullTerminated ==> end == ParseDocument(text).next
  {
    hide JsonGrammar.ParseValue, SkipBlanks;
    var buffer := new ParseBuffer(text);
    buffer.SkipUtf8Bom();
    buffer.SkipWhitespace();
    ok, value := buffer.ParseValue();
    if ok && requireNullTerminated {
      buffer.SkipWhitespace();
      ok := buffer.offset < |buffer.content| && buffer.content[buffer.offset] == 0;
    }
    end := buffer.offset;
  }

  // ----- appending to a child list, as the parsing loops do

  function Snoc(items: Items, v: Value): Items {
    match items
    case NoItems => Item(v, NoItems)
    case Item(head, rest) => Item(head, Snoc(rest, v))
  }

  function SnocM(members: Members, key: CString, v: Value): Members {
    match members
    case NoMembers => Member(key, v, NoMembers)
    case Member(k, value, more) => Member(k, value, SnocM(more, key, v))
  }

  ghost function Chained(items: Items, rest: Items): Items {
    match items
    case NoItems => rest
    case Item(head, tail) => Item(head, Chained(tail, rest))
  }

  ghost function ChainedM(members: Members, rest: Members): Members {
    match members
    case NoMembers => rest
    case Member(k, value, more) => Member(k, value, ChainedM(more, rest))
  }

  ghost function Extended(items: Items, r: Parsed<Items>): Parsed<Items> {
    if r.Fail? then Fail else Ok(Chained(items, r.value), r.next)
  }

  ghost function ExtendedM(members: Members, r: Parsed<Members>): Parsed<Members> {
    if r.Fail? then Fail else Ok(ChainedM(members, r.value), r.next)
  }

  lemma {:induction false} Appends(items: Items, v: Value, rest: Items)
    ensures Chained(items, Item(v, rest)) == Chained(Snoc(items, v), rest)
    ensures Chained(items, Item(v, NoItems)) == Snoc(items, v)
  {
    if items.Item? {
      Appends(items.rest, v, rest);
    }
  }

  lemma {:induction false} AppendsM(members: Members, key: CString, v: Value, rest: Members)
    ensures ChainedM(members, Member(key, v, rest)) == ChainedM(SnocM(members, key, v), rest)
    ensures ChainedM(members, Member(key, v, NoMembers)) == SnocM(members, key, v)
  {
    if members.Member? {
      AppendsM(members.more, key, v, rest);
    }
  }

  lemma NothingCollected(r: Parsed<Items>)
    ensures r == Extended(NoItems, r)
  {
  }

  lemma NothingCollectedM(r: Parsed<Members>)
    ensures r == ExtendedM(NoMembers, r)
  {
  }

  /** Skipping blanks twice is skipping them once. */
  lemma SkipTwice(c: Bytes, i: nat)
    ensures SkipBlanks(c, SkipBlanks(c, i)) == SkipBlanks(c, i)
  {
    if i < |c| {
      BlankEndTwice(c, i);
    }
  }

  /** So the loops may start from the first byte after the blanks. */
  lemma SameAfterBlanks(c: Bytes, i: nat, depth: nat)
    ensures JsonGrammar.ParseItems(c, SkipBlanks(c, i), depth) == JsonGrammar.ParseItems(c, i, depth)
    ensures JsonGrammar.ParseMembers(c, SkipBlanks(c, i), depth) == JsonGrammar.ParseMembers(c, i, depth)
  {
    hide SkipBlanks, JsonGrammar.ParseValue, JsonLiteral.ParseString;
    SkipTwice(c, i);
  }

  lemma {:induction false} BlankEndTwice(c: Bytes, i: nat)
    requires i < |c|
    ensures BlankEnd(c, i) < |c| ==> BlankEnd(c, BlankEnd(c, i)) == BlankEnd(c, i)
    ensures BlankEnd(c, i) == |c| ==> c[|c| - 1] <= 32
    decreases |c| - i
  {
    if c[i] <= 32 && i + 1 < |c| {
      BlankEndTwice(c, i + 1);
    }
  }

  /** An array is empty, or its elements are those from the first byte after the blanks. */
  lemma ArrayUnfold(c: Bytes, off: nat, depth: nat)
    requires off < |c|
    ensures var first := SkipBlanks(c, off + 1);
            JsonGrammar.ParseArray(c, off, depth) ==
            if depth >= NESTING_LIMIT || first >= |c| then Fail
            else if c[first] == RBRACKET then Ok(Array(NoItems), first + 1)
            else match JsonGrammar.ParseItems(c, first, depth + 1)
              case Fail => Fail
              case Ok(items, next) => Ok(Array(items), next)
  {
    hide SkipBlanks, JsonGrammar.ParseItems, JsonGrammar.ParseMembers;
    SameAfterBlanks(c, off + 1, depth + 1);
  }

  lemma ObjectUnfold(c: Bytes, off: nat, depth: nat)
    requires off < |c|
    ensures var first := SkipBlanks(c, off + 1);
            JsonGrammar.ParseObject(c, off, depth) ==
            if depth >= NESTING_LIMIT || first >= |c| then Fail
            else if c[first] == RBRACE then Ok(Object(NoMembers), first + 1)
            else match JsonGrammar.ParseMembers(c, first, depth + 1)
              case Fail => Fail
              case Ok(members, next) => Ok(Object(members), next)
  {
    hide SkipBlanks, JsonGrammar.ParseItems, JsonGrammar.ParseMembers;
    SameAfterBlanks(c, off + 1, depth + 1);
  }

  /** One turn of the array loop, seen from the elements already collected. */
  lemma ItemsUnfold(c: Bytes, from: nat, depth: nat, items: Items)
    ensures var r := JsonGrammar.ParseValue(c, SkipBlanks(c, from), depth);
            var all := Extended(items, JsonGrammar.ParseItems(c, from, depth));
            if r.Fail? then all.Fail?
            else
              var p := SkipBlanks(c, r.next);
              if p >= |c| then all.Fail?
              else if c[p] == COMMA then all == Extended(Snoc(items, r.value), JsonGrammar.ParseItems(c, p + 1, depth))
              else all == if c[p] == RBRACKET then Ok(Snoc(items, r.value), p + 1) else Fail
  {
    hide JsonGrammar.ParseValue, SkipBlanks;
    var r := JsonGrammar.ParseValue(c, SkipBlanks(c, from), depth);
    if r.Ok? {
      var rest := JsonGrammar.ParseItems(c, SkipBlanks(c, r.next) + 1, depth);
      Appends(items, r.value, if rest.Ok? then rest.value else NoItems);
    }
  }

  /** One turn of the object loop, seen from the members already collected. */
  lemma MembersUnfold(c: Bytes, from: nat, depth: nat, members: Members)
    ensures var k := JsonLiteral.ParseString(c, SkipBlanks(c, from));
            var all := ExtendedM(members, JsonGrammar.ParseMembers(c, from, depth));
            if k.Fail? then all.Fail?
            else
              var colon := SkipBlanks(c, k.next);
              if !ByteAt(c, colon, COLON) then all.Fail?
              else
                var r := JsonGrammar.ParseValue(c, SkipBlanks(c, colon + 1), depth);
                if r.Fail? then all.Fail?
                else
                  var p := SkipBlanks(c, r.next);
                  if p >= |c| then all.Fail?
                  else if c[p] == COMMA then
                    all == ExtendedM(SnocM(members, k.value, r.value), JsonGrammar.ParseMembers(c, p + 1, depth))
                  else all == if c[p] == RBRACE then Ok(SnocM(members, k.value, r.value), p + 1) else Fail
  {
    hide JsonGrammar.ParseValue, JsonLiteral.ParseString, SkipBlanks;
    var k := JsonLiteral.ParseString(c, SkipBlanks(c, from));
    if k.Ok? && ByteAt(c, SkipBlanks(c, k.next), COLON) {
      var r := JsonGrammar.ParseValue(c, SkipBlanks(c, SkipBlanks(c, k.next) + 1), depth);
      if r.Ok? {
        var rest := JsonGrammar.ParseMembers(c, SkipBlanks(c, r.next) + 1, depth);
        AppendsM(members, k.value, r.value, if rest.Ok? then rest.value else NoMembers);
      }
    }
  }
}
