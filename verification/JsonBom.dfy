/** Text in front of a document does not matter to what is parsed behind it, so a byte order mark at the
    start is as good as none. */
module JsonBom {
  import opened JsonValue
  import opened JsonUnicode
  import opened JsonLiteral
  import opened JsonGrammar

  /** A result with its offset moved. */
  function Further<T>(r: Parsed<T>, k: nat): Parsed<T> {
    match r case Fail => Fail case Ok(v, next) => Ok(v, next + k)
  }

  function Left(c: Bytes, off: nat): nat {
    if off < |c| then |c| - off else 0
  }

  lemma {:induction false} EndFurther(p: Bytes, c: Bytes, i: nat)
    requires i <= |c|
    ensures LiteralEnd(p + c, |p| + i) == if LiteralEnd(c, i) == -1 then -1 else |p| + LiteralEnd(c, i)
    decreases |c| - i
  {
    if i < |c| {
      assert (p + c)[|p| + i] == c[i];
      if c[i] == QUOTE {
      } else if c[i] != BACKSLASH {
        EndFurther(p, c, i + 1);
      } else if i + 1 < |c| {
        EndFurther(p, c, i + 2);
      }
    }
  }

  lemma HexFurther(p: Bytes, c: Bytes, i: nat)
    requires i + 4 <= |c|
    ensures Hex4(p + c, |p| + i) == Hex4(c, i)
  {
    assert (p + c)[|p| + i] == c[i] && (p + c)[|p| + i + 1] == c[i + 1];
    assert (p + c)[|p| + i + 2] == c[i + 2] && (p + c)[|p| + i + 3] == c[i + 3];
  }

  lemma CodeFurther(p: Bytes, c: Bytes, i: nat, end: nat)
    requires i <= end <= |c|
    ensures Utf16Literal(p + c, |p| + i, |p| + end) == Utf16Literal(c, i, end)
  {
    hide Hex4, Utf8;
    if end - i >= 6 {
      HexFurther(p, c, i + 2);
      if end - i >= 12 {
        HexFurther(p, c, i + 8);
        assert (p + c)[|p| + i + 6] == c[i + 6] && (p + c)[|p| + i + 7] == c[i + 7];
      }
    }
  }

  lemma {:induction false} UnescapeFurther(p: Bytes, c: Bytes, i: nat, end: nat)
    requires end < |c|
    ensures Unescape(p + c, |p| + i, |p| + end) == Unescape(c, i, end)
    decreases end - i
  {
    hide Utf16Literal, Prefixed;
    if i < end {
      assert (p + c)[|p| + i] == c[i] && (p + c)[|p| + i + 1] == c[i + 1];
      if c[i] != BACKSLASH {
        UnescapeFurther(p, c, i + 1, end);
      } else if c[i + 1] == 117 {
        CodeFurther(p, c, i, end);
        var length := Utf16Literal(c, i, end).length;
        if length > 0 {
          UnescapeFurther(p, c, i + length, end);
        }
      } else {
        UnescapeFurther(p, c, i + 2, end);
      }
    }
  }

  lemma StringFurther(p: Bytes, c: Bytes, off: nat)
    ensures ParseString(p + c, |p| + off) == Further(ParseString(c, off), |p|)
  {
    hide Unescape, LiteralEnd, UpToNul;
    if off < |c| {
      assert (p + c)[|p| + off] == c[off];
      EndFurther(p, c, off + 1);
      if LiteralEnd(c, off + 1) != -1 {
        UnescapeFurther(p, c, off + 1, LiteralEnd(c, off + 1));
      }
    }
  }

  lemma {:induction false} NumberEndFurther(p: Bytes, c: Bytes, i: nat, room: nat)
    requires i <= |c|
    ensures NumberEnd(p + c, |p| + i, room) == |p| + NumberEnd(c, i, room)
    decreases room
  {
    if room > 0 && i < |c| {
      assert (p + c)[|p| + i] == c[i];
      if IsNumberByte(c[i]) {
        NumberEndFurther(p, c, i + 1, room - 1);
      }
    }
  }

  lemma NumberFurther(p: Bytes, c: Bytes, off: nat)
    requires off <= |c|
    ensures ParseNumber(p + c, |p| + off) == Further(ParseNumber(c, off), |p|)
  {
    hide NumberEnd, Strtod;
    NumberEndFurther(p, c, off, 63);
    var end := NumberEnd(c, off, 63);
    assert (p + c)[|p| + off..|p| + end] == c[off..end];
  }

  lemma {:induction false} BlankEndFurther(p: Bytes, c: Bytes, i: nat)
    requires i <= |c|
    ensures BlankEnd(p + c, |p| + i) == |p| + BlankEnd(c, i)
    decreases |c| - i
  {
    if i < |c| {
      assert (p + c)[|p| + i] == c[i];
      if c[i] <= 32 {
        BlankEndFurther(p, c, i + 1);
      }
    }
  }

  lemma BlanksFurther(p: Bytes, c: Bytes, off: nat)
    ensures SkipBlanks(p + c, |p| + off) == |p| + SkipBlanks(c, off)
  {
    if off < |c| {
      BlankEndFurther(p, c, off);
    }
  }

  lemma ByteFurther(p: Bytes, c: Bytes, off: nat, b: Byte)
    ensures ByteAt(p + c, |p| + off, b) == ByteAt(c, off, b)
  {
  }

  lemma WordFurther(p: Bytes, c: Bytes, off: nat, n: nat)
    requires off + n <= |c|
    ensures (p + c)[|p| + off..|p| + off + n] == c[off..off + n]
  {
  }

  lemma {:induction false} ValueFurther(p: Bytes, c: Bytes, off: nat, depth: nat)
    ensures ParseValue(p + c, |p| + off, depth) == Further(ParseValue(c, off, depth), |p|)
    decreases Left(c, off), 2
  {
    hide ParseArray, ParseObject, ParseString, ParseNumber;
    if off + 4 <= |c| {
      WordFurther(p, c, off, 4);
    }
    if off + 5 <= |c| {
      WordFurther(p, c, off, 5);
    }
    if off < |c| {
      assert (p + c)[|p| + off] == c[off];
      StringFurther(p, c, off);
      NumberFurther(p, c, off);
      ArrayFurther(p, c, off, depth);
      ObjectFurther(p, c, off, depth);
    }
  }

  lemma {:induction false} ArrayFurther(p: Bytes, c: Bytes, off: nat, depth: nat)
    requires off < |c|
    ensures ParseArray(p + c, |p| + off, depth) == Further(ParseArray(c, off, depth), |p|)
    decreases Left(c, off), 1
  {
    hide ParseItems, SkipBlanks;
    BlanksFurther(p, c, off + 1);
    var first := SkipBlanks(c, off + 1);
    if first < |c| {
      assert (p + c)[|p| + first] == c[first];
    }
    ItemsFurther(p, c, off + 1, depth + 1);
  }

  lemma {:induction false} ItemsFurther(p: Bytes, c: Bytes, off: nat, depth: nat)
    ensures ParseItems(p + c, |p| + off, depth) == Further(ParseItems(c, off, depth), |p|)
    decreases Left(c, off), 3
  {
    hide ParseValue, SkipBlanks, ByteAt;
    BlanksFurther(p, c, off);
    var start := SkipBlanks(c, off);
    ValueFurther(p, c, start, depth);
    var v := ParseValue(c, start, depth);
    if v.Ok? {
      BlanksFurther(p, c, v.next);
      var at := SkipBlanks(c, v.next);
      ByteFurther(p, c, at, COMMA);
      ByteFurther(p, c, at, RBRACKET);
      ItemsFurther(p, c, at + 1, depth);
    }
  }

  lemma {:induction false} ObjectFurther(p: Bytes, c: Bytes, off: nat, depth: nat)
    requires off < |c|
    ensures ParseObject(p + c, |p| + off, depth) == Further(ParseObject(c, off, depth), |p|)
    decreases Left(c, off), 1
  {
    hide ParseMembers, SkipBlanks;
    BlanksFurther(p, c, off + 1);
    var first := SkipBlanks(c, off + 1);
    if first < |c| {
      assert (p + c)[|p| + first] == c[first];
    }
    MembersFurther(p, c, off + 1, depth + 1);
  }

  lemma {:induction false} MembersFurther(p: Bytes, c: Bytes, off: nat, depth: nat)
    ensures ParseMembers(p + c, |p| + off, depth) == Further(ParseMembers(c, off, depth), |p|)
    decreases Left(c, off), 3
  {
    hide ParseValue, ParseString, SkipBlanks, ByteAt;
    BlanksFurther(p, c, off);
    var start := SkipBlanks(c, off);
    StringFurther(p, c, start);
    var key := ParseString(c, start);
    if key.Ok? {
      BlanksFurther(p, c, key.next);
      var colon := SkipBlanks(c, key.next);
      ByteFurther(p, c, colon, COLON);
      BlanksFurther(p, c, colon + 1);
      var at := SkipBlanks(c, colon + 1);
      ValueFurther(p, c, at, depth);
      var v := ParseValue(c, at, depth);
      if v.Ok? {
        BlanksFurther(p, c, v.next);
        var sep := SkipBlanks(c, v.next);
        ByteFurther(p, c, sep, COMMA);
        ByteFurther(p, c, sep, RBRACE);
        MembersFurther(p, c, sep + 1, depth);
      }
    }
  }

  /** What a byte order mark is for: text behind one parses as it does without, three bytes further on; but
      a mark is skipped only once, and only if something follows it. */
  lemma MarkIgnored(t: CString)
    requires t != []
    ensures BOM <= t ==> ParseDocument(BOM + t) == Fail
    ensures !(BOM <= t) ==> ParseDocument(BOM + t) == Further(ParseDocument(t), 3)
    ensures !(BOM <= t) ==> ParseWholeDocument(BOM + t) == Further(ParseWholeDocument(t), 3)
  {
    hide ParseValue, SkipBlanks, ByteAt;
    var c := t + [0];
    var marked := BOM + c;
    assert BOM + t + [0] == marked && marked[..3] == BOM;
    BlanksFurther(BOM, c, 0);
    if BOM <= t {
      SecondMark(t);
    } else {
      assert |t| >= 3 ==> c[..3] == t[..3];
      assert AfterBom(c) == 0;
      ValueFurther(BOM, c, SkipBlanks(c, 0), 0);
      var r := ParseDocument(t);
      if r.Ok? {
        BlanksFurther(BOM, c, r.next);
        ByteFurther(BOM, c, SkipBlanks(c, r.next), 0);
      }
    }
  }

  lemma SecondMark(t: CString)
    requires BOM <= t
    ensures ParseDocument(BOM + t) == Fail
  {
    var c := BOM + t + [0];
    assert c[..3] == BOM && c[3] == t[0] == BOM[0];
    assert BlankEnd(c, 3) == 3;
    NoValue(c, 3);
  }

  /** A mark by itself is no document. */
  lemma MarkAlone()
    ensures ParseDocument(BOM) == Fail
  {
    var c := BOM + [0];
    assert c[0] == BOM[0] && BlankEnd(c, 0) == 0;
    NoValue(c, 0);
  }

  /** No value begins with the first byte of a mark. */
  lemma NoValue(c: Bytes, off: nat)
    requires off < |c| && c[off] == BOM[0]
    ensures ParseValue(c, off, 0) == Fail
  {
    assert off + 4 <= |c| ==> c[off..off + 4][0] == BOM[0];
    assert off + 5 <= |c| ==> c[off..off + 5][0] == BOM[0];
  }
}
