/** String literals: the sizing pass, the unescaping pass, the allocation bound that ties
    them together, and what a well-formed literal means. */
module JsonLiteral {
  import opened JsonValue
  import opened JsonUnicode
  import opened JsonText

  // ----- the two passes of parse_string

  /** Where the sizing pass stops: the closing quote, or -1 if the text runs out. */
  function LiteralEnd(c: Bytes, i: nat): (end: int)
    requires i <= |c|
    ensures end == -1 || (i <= end < |c| && c[end] == QUOTE)
    decreases |c| - i
  {
    if i == |c| then -1
    else if c[i] == QUOTE then i
    else if c[i] != BACKSLASH then LiteralEnd(c, i + 1)
    else if i + 1 >= |c| then -1
    else LiteralEnd(c, i + 2)
  }

  /** How many escapes the sizing pass, started at `i`, opens before position `p`. */
  function Escapes(c: Bytes, i: nat, p: nat): nat
    requires p <= |c|
    decreases p - i
  {
    if i >= p then 0
    else if c[i] == BACKSLASH then 1 + Escapes(c, i + 2, p)
    else Escapes(c, i + 1, p)
  }

  /** The bytes parse_string allocates for the literal opened at `i - 1` and closed at `end`. */
  function Allocation(c: Bytes, i: nat, end: nat): int
    requires 1 <= i <= end <= |c|
  {
    (end - (i - 1)) - Escapes(c, i, end) + 1
  }

  datatype Unescaped = Bad | Good(bytes: Bytes)

  function Prefixed(b: Bytes, u: Unescaped): Unescaped {
    if u.Bad? then Bad else Good(b + u.bytes)
  }

  /** The byte an escape letter other than 'u' stands for, or -1. */
  function ShortMeaning(letter: Byte): int {
    if letter == 98 then 8
    else if letter == 102 then 12
    else if letter == 110 then 10
    else if letter == 114 then 13
    else if letter == 116 then 9
    else if letter == QUOTE || letter == BACKSLASH || letter == 47 then letter
    else -1
  }

  /** The unescaping pass.  It may look at, and step over, the closing quote itself. */
  function Unescape(c: Bytes, i: nat, end: nat): Unescaped
    requires end < |c|
    decreases end - i
  {
    if i >= end then Good([])
    else if c[i] != BACKSLASH then Prefixed([c[i]], Unescape(c, i + 1, end))
    else if c[i + 1] == 117 then
      var lit := Utf16Literal(c, i, end);
      if lit.length == 0 then Bad else Prefixed(lit.bytes, Unescape(c, i + lit.length, end))
    else if ShortMeaning(c[i + 1]) == -1 then Bad
    else Prefixed([ShortMeaning(c[i + 1])], Unescape(c, i + 2, end))
  }

  /** The C string a buffer of bytes is read as. */
  function UpToNul(b: Bytes): (s: CString)
    ensures 0 !in b ==> s == b
  {
    if b == [] || b[0] == 0 then [] else
    var t := UpToNul(b[1..]);
    assert 0 !in b ==> b == [b[0]] + b[1..];
    [b[0]] + t
  }

  datatype Parsed<+T> = Fail | Ok(value: T, next: nat)

  /** parse_string at offset `off`. */
  function ParseString(c: Bytes, off: nat): (r: Parsed<CString>)
    ensures r.Ok? ==> off + 2 <= r.next <= |c|
  {
    if off >= |c| || c[off] != QUOTE then Fail
    else
      var end := LiteralEnd(c, off + 1);
      if end == -1 then Fail
      else match Unescape(c, off + 1, end)
        case Bad => Fail
        case Good(bytes) => Ok(UpToNul(bytes), end + 1)
  }

  // ----- the allocation bound

  /** Escapes opened in a window are at most those a scan from its start or second byte opens. */
  lemma {:induction false} EscapesWindow(c: Bytes, i: nat, p: nat, q: nat)
    requires i <= p <= q <= |c|
    ensures Escapes(c, i, p) <= Escapes(c, i, q)
    ensures Escapes(c, i, q) - Escapes(c, i, p) <= Max(Escapes(c, p, q), Escapes(c, p + 1, q))
    decreases p - i
  {
    if i < p {
      var next := if c[i] == BACKSLASH then i + 2 else i + 1;
      if next <= p {
        EscapesWindow(c, next, p, q);
      }
    }
  }

  /** No two neighbouring bytes both open an escape. */
  lemma {:induction false} EscapesHalf(c: Bytes, i: nat, q: nat)
    requires i <= q <= |c|
    ensures 2 * Escapes(c, i, q) <= q - i + 1
    decreases q - i
  {
    if i < q {
      var next := if c[i] == BACKSLASH then i + 2 else i + 1;
      if next <= q {
        EscapesHalf(c, next, q);
      }
    }
  }

  /** Hex digits are not backslashes, so a well-formed quadruple opens no escape. */
  lemma HexOpensNothing(c: Bytes, i: nat, q: nat)
    requires i + 4 <= q <= |c| && Hex4(c, i) != 0
    ensures Escapes(c, i, q) == Escapes(c, i + 4, q)
  {
    assert Escapes(c, i, q) == Escapes(c, i + 1, q);
    assert Escapes(c, i + 1, q) == Escapes(c, i + 2, q);
    assert Escapes(c, i + 2, q) == Escapes(c, i + 3, q);
  }

  /** One \u literal writes no more than its input bytes less the escapes the sizing pass
      found there, even when its digits are malformed and hide further backslashes. */
  lemma UnicodeFits(c: Bytes, i: nat, p: nat, end: nat)
    requires i <= p < end < |c| && c[p] == BACKSLASH && c[p + 1] == 117
    requires Utf16Literal(c, p, end).length > 0
    ensures var lit := Utf16Literal(c, p, end);
            |lit.bytes| + Escapes(c, i, p + lit.length) <= lit.length + Escapes(c, i, p)
  {
    var lit := Utf16Literal(c, p, end);
    var q := p + lit.length;
    EscapesWindow(c, i, p, q);
    EscapesHalf(c, p, q);
    EscapesHalf(c, p + 1, q);
    var first := Hex4(c, p + 2);
    if first != 0 {
      HexOpensNothing(c, p + 2, q);
      assert Escapes(c, p, q) == 1 + Escapes(c, p + 2, q);
      assert Escapes(c, p + 1, q) == Escapes(c, p + 2, q);
    }
  }

  /** What one step of the unescaping pass at `p` writes fits what the step consumes. */
  lemma StepFits(c: Bytes, i: nat, p: nat, step: nat)
    requires i <= p && p + step <= |c|
    requires (step == 1 && c[p] != BACKSLASH) || step == 2
    ensures 1 + Escapes(c, i, p + step) <= step + Escapes(c, i, p)
  {
    EscapesWindow(c, i, p, p + step);
    EscapesHalf(c, p, p + step);
    EscapesHalf(c, p + 1, p + step);
  }

  /** Bytes written up to `p` never reach the allocation, wherever the pass stands. */
  lemma RoomLeft(c: Bytes, i: nat, p: nat, end: nat, written: nat)
    requires 1 <= i <= p <= end + 1 <= |c| && i <= end
    requires written + Escapes(c, i, p) <= p - i
    ensures written + 1 <= Allocation(c, i, end)
  {
    if p < end {
      EscapesWindow(c, i, p, end);
      EscapesHalf(c, p, end);
      EscapesHalf(c, p + 1, end);
    } else {
      EscapesWindow(c, i, end, p);
    }
  }

  /** The bytes of a \u literal go where there is room for them. */
  lemma UnicodeRoom(c: Bytes, i: nat, p: nat, end: nat, written: nat)
    requires 1 <= i <= p < end < |c| && c[p] == BACKSLASH && c[p + 1] == 117
    requires written + Escapes(c, i, p) <= p - i && written < Allocation(c, i, end)
    ensures var lit := Utf16Literal(c, p, end);
            && written + |lit.bytes| < Allocation(c, i, end)
            && (lit.length > 0 ==> written + |lit.bytes| + Escapes(c, i, p + lit.length) <= p + lit.length - i)
  {
    var lit := Utf16Literal(c, p, end);
    if lit.length > 0 {
      UnicodeFits(c, i, p, end);
      RoomLeft(c, i, p + lit.length, end, written + |lit.bytes|);
    }
  }

  lemma {:induction false} UnescapeFitsFrom(c: Bytes, i: nat, p: nat, end: nat, written: nat)
    requires 1 <= i <= p <= end + 1 <= |c| && i <= end
    requires written + Escapes(c, i, p) <= p - i
    requires Unescape(c, p, end).Good?
    ensures written + |Unescape(c, p, end).bytes| + 1 <= Allocation(c, i, end)
    decreases end + 1 - p
  {
    if p >= end {
      RoomLeft(c, i, p, end, written);
    } else if c[p] != BACKSLASH {
      StepFits(c, i, p, 1);
      UnescapeFitsFrom(c, i, p + 1, end, written + 1);
    } else if c[p + 1] == 117 {
      UnicodeFits(c, i, p, end);
      var lit := Utf16Literal(c, p, end);
      UnescapeFitsFrom(c, i, p + lit.length, end, written + |lit.bytes|);
    } else {
      StepFits(c, i, p, 2);
      UnescapeFitsFrom(c, i, p + 2, end, written + 1);
    }
  }

  /** Every accepted literal, malformed \u digits included, fits the space sized for it,
      terminator and all. */
  lemma UnescapeFits(c: Bytes, i: nat)
    requires 1 <= i <= |c| && LiteralEnd(c, i) != -1
    requires Unescape(c, i, LiteralEnd(c, i)).Good?
    ensures |Unescape(c, i, LiteralEnd(c, i)).bytes| + 1 <= Allocation(c, i, LiteralEnd(c, i))
  {
    UnescapeFitsFrom(c, i, i, LiteralEnd(c, i), 0);
  }

  // ----- the unescaping pass, one step at a time

  /** Before the pass nothing is written, and there is room for the terminator. */
  lemma NothingWritten(c: Bytes, i: nat, end: nat)
    requires 1 <= i <= end < |c|
    ensures Escapes(c, i, i) == 0 && 1 <= Allocation(c, i, end)
    ensures Unescape(c, i, end) == Prefixed([], Unescape(c, i, end))
  {
    RoomLeft(c, i, i, end, 0);
    var u := Unescape(c, i, end);
    assert u.Good? ==> [] + u.bytes == u.bytes;
  }

  lemma PrefixedMore(done: Bytes, b: Bytes, u: Unescaped)
    ensures Prefixed(done, Prefixed(b, u)) == Prefixed(done + b, u)
  {
    if u.Good? {
      assert done + (b + u.bytes) == done + b + u.bytes;
    }
  }

  /** What one step at `p` adds to the bytes already written, or that it makes the literal fail. */
  lemma UnescapeStep(c: Bytes, i: nat, p: nat, end: nat, done: Bytes)
    requires i <= p < end < |c| && Unescape(c, i, end) == Prefixed(done, Unescape(c, p, end))
    ensures c[p] != BACKSLASH ==> Unescape(c, i, end) == Prefixed(done + [c[p]], Unescape(c, p + 1, end))
    ensures c[p] == BACKSLASH && c[p + 1] == 117 ==>
              var lit := Utf16Literal(c, p, end);
              Unescape(c, i, end) ==
              if lit.length == 0 then Bad else Prefixed(done + lit.bytes, Unescape(c, p + lit.length, end))
    ensures c[p] == BACKSLASH && c[p + 1] != 117 ==>
              var b := ShortMeaning(c[p + 1]);
              Unescape(c, i, end) == if b == -1 then Bad else Prefixed(done + [b], Unescape(c, p + 2, end))
  {
    hide Utf16Literal;
    if c[p] != BACKSLASH {
      PrefixedMore(done, [c[p]], Unescape(c, p + 1, end));
    } else if c[p + 1] == 117 {
      var lit := Utf16Literal(c, p, end);
      if lit.length > 0 {
        PrefixedMore(done, lit.bytes, Unescape(c, p + lit.length, end));
      }
    } else if ShortMeaning(c[p + 1]) != -1 {
      PrefixedMore(done, [ShortMeaning(c[p + 1])], Unescape(c, p + 2, end));
    }
  }

  lemma UnescapeDone(c: Bytes, i: nat, p: nat, end: nat, done: Bytes)
    requires end <= p && end < |c| && Unescape(c, i, end) == Prefixed(done, Unescape(c, p, end))
    ensures Unescape(c, i, end) == Good(done)
  {
    assert done + [] == done;
  }
}
