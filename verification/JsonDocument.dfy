/** Which documents cJSON_Parse accepts, exactly, and where those of RFC 8259 are among them. */
module JsonDocument {
  import opened JsonValue
  import opened JsonLiteral
  import opened JsonMeaning
  import opened JsonQuotation
  import opened JsonGrammar
  import opened JsonSyntax
  import opened JsonAccepted
  import opened JsonBom

  /** A value with blanks around it, perhaps behind a byte order mark. */
  datatype Doc = Doc(marked: bool, before: Bytes, value: Syntax, after: Bytes)

  function DocText(d: Doc): Bytes {
    (if d.marked then BOM else []) + Document(d.before, d.value, d.after)
  }

  /** The document is one the parser takes. */
  predicate GoodDoc(d: Doc) {
    Spaces(d.before) && GoodSyntax(d.value) && Spaces(d.after) && Nesting(Denoted(d.value)) <= 1000
  }

  // ----- such documents are accepted

  lemma DocStarts(d: Doc)
    requires GoodDoc(d)
    ensures var t := Document(d.before, d.value, d.after); t != [] && t[0] < 128 && !(BOM <= t)
  {
    hide Text, Denoted, Nesting;
    FirstByte(d.value);
    var t := Document(d.before, d.value, d.after);
    assert t[0] == if d.before == [] then Text(d.value)[0] else d.before[0];
  }

  lemma GoodDocAccepted(t: CString, d: Doc)
    requires GoodDoc(d) && DocText(d) == t
    ensures ParseWholeDocument(t).Ok? && ParseWholeDocument(t).value == Denoted(d.value)
  {
    hide Text, Denoted, Nesting, ParseWholeDocument, ParseDocument, GoodSyntax, Spaces;
    var body := Document(d.before, d.value, d.after);
    DocStarts(d);
    assert t == if d.marked then BOM + body else body by {
      assert [] + body == body;
    }
    assert 0 !in body by {
      assert forall k :: 0 <= k < |body| ==> body[k] == t[|t| - |body| + k];
    }
    EveryTextAccepted(d.before, d.value, d.after);
    if d.marked {
      MarkIgnored(body);
    }
  }

  // ----- and no others

  /** What stands in front of the value. */
  lemma DocFront(t: CString) returns (marked: bool, before: Bytes)
    requires ParseDocument(t).Ok?
    ensures var c := t + [0];
            && AfterBom(c) + |before| == SkipBlanks(c, AfterBom(c)) < |c| && Spaces(before)
            && (marked <==> AfterBom(c) == 3) && At(c, 0, (if marked then BOM else []) + before)
  {
    hide ParseValue, SkipBlanks, Spaces;
    var c := t + [0];
    var from := AfterBom(c);
    var at := SkipBlanks(c, from);
    ValueStarts(c, at, 0);
    SkippedBlank(c, from);
    marked, before := from == 3, c[from..at];
    assert c[0..at] == c[..from] + before;
    assert !marked ==> c[..from] == [];
  }

  /** Everything behind the value is blank. */
  lemma DocEnd(t: CString, next: nat)
    requires next <= |t| + 1 && ByteAt(t + [0], SkipBlanks(t + [0], next), 0)
    ensures next <= |t| && Spaces(t[next..])
  {
    var c := t + [0];
    BlanksUpTo(c, next);
    assert BlankEnd(c, next) == |c| by {
      if BlankEnd(c, next) < |c| {
        BlankStops(c, next);
      }
    }
    assert forall k :: next <= k < |t| ==> c[k] == t[k];
  }

  lemma {:induction false} BlankStops(c: Bytes, i: nat)
    requires i <= |c| && BlankEnd(c, i) < |c|
    ensures c[BlankEnd(c, i)] > 32
    decreases |c| - i
  {
    if c[i] <= 32 {
      BlankStops(c, i + 1);
    }
  }

  /** What cJSON_Parse accepts begins with such a document, which denotes the value. */
  lemma PrefixFound(t: CString) returns (d: Doc)
    requires ParseDocument(t).Ok?
    ensures GoodDoc(d) && d.after == [] && DocText(d) <= t
    ensures ParseDocument(t) == Ok(Denoted(d.value), |DocText(d)|)
  {
    hide Text, Denoted, Nesting, ParseValue, SkipBlanks, GoodSyntax, Spaces, At;
    var c := t + [0];
    var marked, before := DocFront(t);
    var at := SkipBlanks(c, AfterBom(c));
    var s := ValueFound(c, at, 0);
    NoBlank();
    d := Doc(marked, before, s, []);
    PrefixText(t, d, at);
  }

  lemma PrefixText(t: CString, d: Doc, at: nat)
    requires d.after == [] && GoodSyntax(d.value)
    requires At(t + [0], 0, (if d.marked then BOM else []) + d.before) && At(t + [0], at, Text(d.value))
    requires at == (if d.marked then 3 else 0) + |d.before| && ParseValue(t + [0], at, 0).Ok?
    requires ReadAs(t + [0], at, d.value, ParseValue(t + [0], at, 0))
    ensures DocText(d) <= t && |DocText(d)| == at + |Text(d.value)|
  {
    hide Text, ParseValue, At, GoodSyntax, Denoted;
    var c, front := t + [0], (if d.marked then BOM else []) + d.before;
    AtParts(c, 0, front, Text(d.value));
    var all := front + Text(d.value);
    assert d.before + (Text(d.value) + []) == d.before + Text(d.value);
    assert DocText(d) == all;
    LastByte(d.value);
    WithoutNul(t, all, Text(d.value));
  }

  /** A text that stands at the front and does not end in NUL stands in front of the terminator. */
  lemma WithoutNul(t: CString, all: Bytes, last: Bytes)
    requires At(t + [0], 0, all) && last != [] && last[|last| - 1] != 0
    requires |last| <= |all| && all[|all| - |last|..] == last
    ensures all <= t
  {
    var c := t + [0];
    assert all[|all| - 1] == last[|last| - 1];
    assert c[0..|all|][|all| - 1] == c[|all| - 1];
    assert all == c[0..|all|] == t[..|all|];
  }

  lemma LastByte(s: Syntax)
    requires GoodSyntax(s)
    ensures Text(s) != [] && Text(s)[|Text(s)| - 1] != 0
  {
    match s
    case NumberOf(n) => NumeralBytes(n);
    case StringOf(q) => LiteralEnds(q);
    case _ =>
  }

  lemma LiteralEnds(q: Quotation)
    requires Acceptable(q)
    ensures Quoted(q) != [] && Quoted(q)[|Quoted(q)| - 1] == QUOTE
  {
    if q.shared {
      SharedEnd(q.pieces);
    }
  }

  lemma GoodDocFound(t: CString) returns (d: Doc)
    requires ParseWholeDocument(t).Ok?
    ensures GoodDoc(d) && DocText(d) == t && ParseWholeDocument(t).value == Denoted(d.value)
  {
    hide Text, Denoted, Nesting, ParseDocument, SkipBlanks, GoodSyntax, Spaces;
    var r := ParseDocument(t);
    var front := PrefixFound(t);
    DocEnd(t, r.next);
    d := front.(after := t[r.next..]);
    hide DocText;
    DocMore(front, d.after);
    assert t == t[..r.next] + t[r.next..];
  }

  lemma DocMore(d: Doc, after: Bytes)
    requires d.after == []
    ensures DocText(d.(after := after)) == DocText(d) + after
  {
    hide Text;
    var mark := if d.marked then BOM else [];
    assert mark + (d.before + (Text(d.value) + after)) == mark + (d.before + (Text(d.value) + [])) + after;
  }

  /** With require_null_terminated, a text is accepted as `v` if and only if it is such a document that
      denotes `v`; every other text is refused. */
  lemma DocumentExact(t: CString, v: Value)
    ensures (exists d :: GoodDoc(d) && DocText(d) == t && Denoted(d.value) == v) <==>
            ParseWholeDocument(t).Ok? && ParseWholeDocument(t).value == v
  {
    hide GoodSyntax, Spaces, Nesting, DocText, Denoted, ParseWholeDocument;
    if ParseWholeDocument(t).Ok? {
      var d := GoodDocFound(t);
    }
    forall d | GoodDoc(d) && DocText(d) == t
      ensures ParseWholeDocument(t).Ok? && ParseWholeDocument(t).value == Denoted(d.value)
    {
      GoodDocAccepted(t, d);
    }
  }

  // ----- without require_null_terminated

  /** A numeral is taken for a number whatever follows it, though perhaps for a longer one. */
  lemma StrtodUses(s: Bytes, n: Numeral)
    requires GoodNumeral(n) && NumeralText(n) <= s
    ensures s != [] && (s[0] == MINUS || IsDigit(s[0])) && Strtod(s).1 > 0
  {
    var t := NumeralText(n);
    NumeralStart(n);
    assert forall k :: 0 <= k < |t| ==> s[k] == t[k];
    var start := |SignText(n)|;
    if n.whole != [] {
      assert t[start] == n.whole[0] && IsDigit(n.whole[0]);
      assert DigitsEnd(s, start) > start;
    } else {
      assert t[1] == 46 && t[2] == n.fraction[0] && IsDigit(n.fraction[0]);
      assert DigitsEnd(s, 1) == 1 && DigitsEnd(s, 2) > 2;
    }
    assert n.minus <==> s[0] == MINUS;
    assert Mantissa(s).1 > 0;
    hide Mantissa, DigitsEnd, Run;
  }

  lemma {:induction false} NumberEndCovers(c: Bytes, i: nat, k: nat, room: nat)
    requires i + k <= |c| && k <= room && forall j :: i <= j < i + k ==> IsNumberByte(c[j])
    ensures NumberEnd(c, i, room) >= i + k
    decreases k
  {
    if k > 0 {
      NumberEndCovers(c, i + 1, k - 1, room - 1);
    }
  }

  lemma NumeralTaken(c: Bytes, off: nat, n: Numeral, d: nat)
    requires GoodNumeral(n) && |NumeralText(n)| <= 63 && At(c, off, NumeralText(n))
    ensures ParseValue(c, off, d).Ok?
  {
    hide ParseArray, ParseObject, ParseString, Strtod, NumeralText, GoodNumeral, NumberEnd;
    var t := NumeralText(n);
    NumeralBytes(n);
    forall j | off <= j < off + |t|
      ensures IsNumberByte(c[j])
    {
      AtByte(c, off, t, j - off);
    }
    NumberEndCovers(c, off, |t|, 63);
    var s := c[off..NumberEnd(c, off, 63)];
    assert t == c[off..off + |t|] == s[..|t|];
    StrtodUses(s, n);
    NotAWord(c, off);
  }

  /** A text that begins with such a document is accepted, and as what it denotes unless that is a number,
      which may go on. */
  lemma PrefixAccepted(t: CString, d: Doc)
    requires GoodDoc(d) && d.after == [] && DocText(d) <= t
    ensures ParseDocument(t).Ok?
    ensures !d.value.NumberOf? ==> ParseDocument(t) == Ok(Denoted(d.value), |DocText(d)|)
  {
    hide Text, Denoted, Nesting, ParseValue, SkipBlanks, Spaces, At, AfterBom, GoodSyntax, DocText;
    var c, from := t + [0], if d.marked then 3 else 0;
    var at := from + |d.before|;
    PrefixParts(t, d);
    if d.value.NumberOf? {
      NumberIsGood(d.value);
      NumeralTaken(c, at, d.value.numeral, 0);
    } else {
      ValueAccepted(c, at, d.value, 0);
    }
  }

  lemma NumberIsGood(s: Syntax)
    requires s.NumberOf? && GoodSyntax(s)
    ensures GoodNumeral(s.numeral) && |NumeralText(s.numeral)| <= 63 && Text(s) == NumeralText(s.numeral)
  {
  }

  lemma PrefixParts(t: CString, d: Doc)
    requires GoodDoc(d) && d.after == [] && DocText(d) <= t
    ensures var c, from := t + [0], if d.marked then 3 else 0;
            var at := from + |d.before|;
            && AfterBom(c) == from && SkipBlanks(c, from) == at && At(c, at, Text(d.value))
            && |DocText(d)| == at + |Text(d.value)|
  {
    hide Text, Denoted, Nesting, GoodSyntax, SkipBlanks;
    var c, mark := t + [0], if d.marked then BOM else [];
    var all := DocText(d);
    assert all == mark + (d.before + (Text(d.value) + [])) && Text(d.value) + [] == Text(d.value);
    assert c[0..|all|] == t[..|all|] == all;
    assert At(c, 0, all);
    AtParts(c, 0, mark, d.before + Text(d.value));
    AtParts(c, |mark|, d.before, Text(d.value));
    FirstByte(d.value);
    AtByte(c, |mark| + |d.before|, Text(d.value), 0);
    SpacesSkipped(c, |mark|, d.before);
    if d.marked {
      assert c[..3] == c[0..3] == BOM;
    } else {
      NoMark(c, d.before);
    }
  }

  /** cJSON_Parse accepts exactly the texts that begin with such a document. */
  lemma PrefixExact(t: CString)
    ensures ParseDocument(t).Ok? <==> exists d :: GoodDoc(d) && d.after == [] && DocText(d) <= t
  {
    hide GoodDoc, DocText, ParseDocument;
    if ParseDocument(t).Ok? {
      var d := PrefixFound(t);
    }
    forall d | GoodDoc(d) && d.after == [] && DocText(d) <= t
      ensures ParseDocument(t).Ok?
    {
      PrefixAccepted(t, d);
    }
  }

  // ----- the texts of RFC 8259

  /** Section 2: white space. */
  predicate RfcSpaces(t: Bytes) {
    forall k :: 0 <= k < |t| ==> t[k] in {SPACE, TAB, NEWLINE, 13}
  }

  /** Section 6: digits on both sides of a point, and no zero in front of others. */
  predicate RfcNumeral(n: Numeral) {
    && GoodNumeral(n) && n.whole != [] && (n.point ==> n.fraction != []) && (n.whole[0] == 48 ==> |n.whole| == 1)
  }

  /** Section 7: no control characters, and escapes as they should be. */
  predicate RfcString(q: Quotation) {
    && !q.shared && AllWellFormed(q.pieces)
    && forall k :: 0 <= k < |q.pieces| && q.pieces[k].Plain? ==> q.pieces[k].b >= 32
  }

  /** Sections 3 to 5: a text of the RFC whose numerals have at most 63 bytes. */
  predicate Rfc(s: Syntax)
    decreases s, 0
  {
    match s
    case NumberOf(n) => RfcNumeral(n) && |NumeralText(n)| <= 63
    case StringOf(q) => RfcString(q)
    case ArrayOf(gap, items) => RfcSpaces(gap) && RfcItems(items)
    case ObjectOf(gap, members) => RfcSpaces(gap) && RfcMembers(members)
    case _ => true
  }

  predicate RfcItems(items: SyntaxItems)
    decreases items, 0
  {
    items.Element? ==> RfcSpaces(items.before) && Rfc(items.value) && RfcSpaces(items.after) && RfcItems(items.rest)
  }

  predicate RfcMembers(members: SyntaxMembers)
    decreases members, 0
  {
    members.Pairing? ==>
      && RfcSpaces(members.before) && RfcString(members.name) && RfcSpaces(members.beforeColon)
      && RfcSpaces(members.afterColon) && Rfc(members.value) && RfcSpaces(members.after) && RfcMembers(members.more)
  }

  lemma RfcStringGood(q: Quotation)
    requires RfcString(q)
    ensures Acceptable(q)
  {
    WellFormedAcceptable(q.pieces);
    assert q == Quotation(q.pieces, false);
  }

  /** The parser takes them all. */
  lemma {:induction false} RfcGood(s: Syntax)
    requires Rfc(s)
    ensures GoodSyntax(s)
    decreases s, 1
  {
    hide Acceptable, RfcString, GoodNumeral, NumeralText;
    match s
    case NumberOf(n) => assert GoodNumeral(n) by { RfcNumeralGood(n); }
    case StringOf(q) => RfcStringGood(q);
    case ArrayOf(_, items) => RfcItemsGood(items);
    case ObjectOf(_, members) => RfcMembersGood(members);
    case _ =>
  }

  lemma RfcNumeralGood(n: Numeral)
    requires RfcNumeral(n)
    ensures GoodNumeral(n)
  {
  }

  lemma {:induction false} RfcItemsGood(items: SyntaxItems)
    requires RfcItems(items)
    ensures GoodItems(items)
    decreases items, 0
  {
    if items.Element? {
      RfcGood(items.value);
      RfcItemsGood(items.rest);
    }
  }

  lemma {:induction false} RfcMembersGood(members: SyntaxMembers)
    requires RfcMembers(members)
    ensures GoodMembers(members)
    decreases members, 0
  {
    if members.Pairing? {
      hide Acceptable, RfcString;
      RfcStringGood(members.name);
      RfcGood(members.value);
      RfcMembersGood(members.more);
    }
  }

  /** Every text of the RFC, with numerals of at most 63 bytes, is accepted as the value it denotes if that
      nests at most 1000 deep, and refused otherwise. */
  lemma RfcAccepted(before: Bytes, s: Syntax, after: Bytes)
    requires RfcSpaces(before) && Rfc(s) && RfcSpaces(after) && 0 !in Document(before, s, after)
    ensures GoodSyntax(s)
    ensures var t, v := Document(before, s, after), Denoted(s);
            && ParseDocument(t) == Expected(0, Nesting(v), v, |before| + |Text(s)|)
            && ParseWholeDocument(t) == Expected(0, Nesting(v), v, |before| + |Text(s)|)
  {
    hide Rfc, GoodSyntax, Text, Denoted, Nesting, ParseDocument, ParseWholeDocument, Expected;
    RfcGood(s);
    EveryTextAccepted(before, s, after);
  }
}
