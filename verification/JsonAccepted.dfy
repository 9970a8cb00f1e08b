/** The converse of JsonSyntax: what the parser accepts is such a text, and the value is what that denotes. */
module JsonAccepted {
  import opened JsonValue
  import opened JsonLiteral
  import opened JsonMeaning
  import opened JsonQuotation
  import opened JsonGrammar
  import opened JsonSyntax

  // ----- numbers

  /** The digits in front of an exponent. */
  lemma MantissaFound(s: Bytes) returns (n: Numeral)
    requires s != [] && (s[0] == MINUS || IsDigit(s[0])) && Mantissa(s).1 > 0
    ensures GoodNumeral(n) && n.exponent == NoExponent && NumeralText(n) == s[..Mantissa(s).1]
    ensures Mantissa(s).0 == if n.minus then -Magnitude(n) else Magnitude(n)
  {
    var start := if s[0] == MINUS then 1 else 0;
    var w := DigitsEnd(s, start);
    var point := w < |s| && s[w] == 46;
    var end := if point then DigitsEnd(s, w + 1) else w;
    n := Numeral(s[0] == MINUS, s[start..w], point, if point then s[w + 1..end] else [], NoExponent);
    hide NumeralText, AllDigits, Magnitude, DigitsEnd;
    MantissaGood(s, n, start, w, end);
    MantissaValue(s, n, start, w, end);
    MantissaText(s, n, start, w, end);
  }

  lemma MantissaValue(s: Bytes, n: Numeral, start: nat, w: nat, end: nat)
    requires GoodNumeral(n) && s != [] && s[0] != 43 && n.minus == (s[0] == MINUS)
    requires start == if n.minus then 1 else 0
    requires start <= w <= end <= |s| && w == DigitsEnd(s, start) && n.point == (w < |s| && s[w] == 46)
    requires end == if n.point then DigitsEnd(s, w + 1) else w
    requires n.whole == s[start..w] && n.fraction == if n.point then s[w + 1..end] else []
    ensures Mantissa(s) == (if n.minus then -Magnitude(n) else Magnitude(n), end)
  {
    hide DigitsEnd, DigitsValue, PowerOfTen, FractionValue, AllDigits;
    FractionDigits(n.fraction);
    NoDigits();
  }

  lemma MantissaGood(s: Bytes, n: Numeral, start: nat, w: nat, end: nat)
    requires s != [] && (s[0] == MINUS || IsDigit(s[0])) && start == (if s[0] == MINUS then 1 else 0)
    requires w == DigitsEnd(s, start) && (n.point ==> w < |s|)
    requires end == if n.point then DigitsEnd(s, w + 1) else w
    requires n == Numeral(s[0] == MINUS, s[start..w], n.point, if n.point then s[w + 1..end] else [], NoExponent)
    ensures AllDigits(n.whole) && AllDigits(n.fraction) && (n.whole == [] ==> n.minus)
  {
    DigitsEndAreDigits(s, start);
    if n.point {
      DigitsEndAreDigits(s, w + 1);
    }
    assert IsDigit(s[0]) ==> w > 0;
  }

  lemma MantissaText(s: Bytes, n: Numeral, start: nat, w: nat, end: nat)
    requires start <= w <= end <= |s| && n.exponent == NoExponent && n.whole == s[start..w]
    requires start == (if n.minus then 1 else 0) && (n.minus ==> s[0] == MINUS)
    requires if n.point then w < end && s[w] == 46 && n.fraction == s[w + 1..end] else end == w
    ensures NumeralText(n) == s[..end]
  {
    assert SignText(n) == s[..start];
    assert SignText(n) + n.whole == s[..w];
    assert FractionText(n) == s[w..end];
    assert s[..w] + s[w..end] + [] == s[..end];
  }

  /** Whatever strtod uses of a text that begins with a minus or a digit is a numeral. */
  lemma StrtodFound(s: Bytes) returns (n: Numeral)
    requires s != [] && (s[0] == MINUS || IsDigit(s[0])) && Strtod(s).1 > 0
    ensures GoodNumeral(n) && NumeralText(n) == s[..Strtod(s).1] && NumeralValue(n) == Strtod(s).0
  {
    hide Mantissa, DigitsEnd, Run, Scaled, NumeralText, Magnitude, Power, AllDigits;
    var (d, m) := Mantissa(s);
    n := MantissaFound(s);
    var signed := m + 1 < |s| && (s[m + 1] == 43 || s[m + 1] == MINUS);
    var digits := m + 1 + (if signed then 1 else 0);
    if 0 < m < |s| && (s[m] == 69 || s[m] == 101) && DigitsEnd(s, digits) > digits {
      var e := ExponentFound(s, m, digits);
      n := WithExponentFound(s, n, e, m, digits);
    } else {
      ToTheZero(d);
    }
  }

  lemma ExponentFound(s: Bytes, m: nat, digits: nat) returns (e: Exponent)
    requires m + 1 <= digits < |s| && (s[m] == 69 || s[m] == 101)
    requires digits == m + 1 || (digits == m + 2 && (s[m + 1] == 43 || s[m + 1] == MINUS))
    requires DigitsEnd(s, digits) > digits
    ensures e == Exponent(s[m], s[m + 1..digits], s[digits..DigitsEnd(s, digits)]) && GoodExponent(e)
    ensures e.sign == [MINUS] <==> s[m + 1] == MINUS
    ensures DigitsValue(e.digits) == Run(s, digits)
  {
    e := Exponent(s[m], s[m + 1..digits], s[digits..DigitsEnd(s, digits)]);
    DigitsEndAreDigits(s, digits);
    assert digits == m + 2 ==> s[m + 1..digits] == [s[m + 1]];
  }

  lemma WithExponentFound(s: Bytes, n: Numeral, e: Exponent, m: nat, digits: nat) returns (n': Numeral)
    requires GoodNumeral(n) && n.exponent == NoExponent && m + 1 <= digits < |s| && NumeralText(n) == s[..m]
    requires DigitsEnd(s, digits) > digits && GoodExponent(e)
    requires e == Exponent(s[m], s[m + 1..digits], s[digits..DigitsEnd(s, digits)])
    requires e.sign == [MINUS] <==> s[m + 1] == MINUS
    requires DigitsValue(e.digits) == Run(s, digits)
    ensures GoodNumeral(n') && NumeralText(n') == s[..DigitsEnd(s, digits)]
    ensures NumeralValue(n') ==
            Scaled(if n.minus then -Magnitude(n) else Magnitude(n), s[m + 1] == MINUS, Run(s, digits))
  {
    hide DigitsEnd, Run, Scaled, Power, DigitsValue, FractionValue, AllDigits, NumeralText;
    n' := n.(exponent := e);
    var d := if n.minus then -Magnitude(n) else Magnitude(n);
    assert Magnitude(n') == Magnitude(n);
    ScaledValue(d, s[m + 1] == MINUS, Run(s, digits));
    ExponentBehind(s, n, e, m, digits, DigitsEnd(s, digits));
  }

  lemma ExponentBehind(s: Bytes, n: Numeral, e: Exponent, m: nat, digits: nat, end: nat)
    requires n.exponent == NoExponent && m + 1 <= digits <= end <= |s| && NumeralText(n) == s[..m]
    requires e == Exponent(s[m], s[m + 1..digits], s[digits..end])
    ensures NumeralText(n.(exponent := e)) == s[..end]
  {
    var front := SignText(n) + n.whole + FractionText(n);
    assert front + [] == s[..m];
    assert [s[m]] + s[m + 1..digits] + s[digits..end] == s[m..end];
    assert s[..m] + s[m..end] == s[..end];
  }

  /** What parse_number accepts is a numeral. */
  lemma NumeralFound(c: Bytes, off: nat) returns (n: Numeral)
    requires off < |c| && (c[off] == MINUS || IsDigit(c[off])) && ParseNumber(c, off).Ok?
    ensures GoodNumeral(n) && |NumeralText(n)| <= 63 && At(c, off, NumeralText(n))
    ensures ParseNumber(c, off) == Ok(Number(NumeralValue(n)), off + |NumeralText(n)|)
  {
    hide Strtod, NumeralText, NumeralValue, GoodNumeral, NumberEnd;
    NumberStarts(c, off);
    var s := c[off..NumberEnd(c, off, 63)];
    n := StrtodFound(s);
    var used := Strtod(s).1;
    assert s[..used] == c[off..off + used];
  }

  lemma NumberStarts(c: Bytes, off: nat)
    requires off < |c| && (c[off] == MINUS || IsDigit(c[off]))
    ensures NumberEnd(c, off, 63) > off
  {
  }

  // ----- blanks

  /** What is skipped before a byte that is not blank. */
  lemma SkippedBlank(c: Bytes, i: nat)
    requires SkipBlanks(c, i) < |c| && c[SkipBlanks(c, i)] > 32
    ensures i <= SkipBlanks(c, i) && Spaces(c[i..SkipBlanks(c, i)])
  {
    BlanksUpTo(c, i);
  }

  lemma {:induction false} BlanksUpTo(c: Bytes, i: nat)
    requires i <= |c|
    ensures forall k :: i <= k < BlankEnd(c, i) ==> c[k] <= 32
    decreases |c| - i
  {
    if i < |c| && c[i] <= 32 {
      BlanksUpTo(c, i + 1);
    }
  }

  /** No value begins with a blank. */
  lemma ValueStarts(c: Bytes, off: nat, d: nat)
    requires ParseValue(c, off, d).Ok?
    ensures off < |c| && c[off] > 32
  {
    hide ParseArray, ParseObject, ParseNumber, ParseString;
    if off < |c| {
      NotAWord(c, off);
    }
  }

  lemma StringStarts(c: Bytes, off: nat)
    requires ParseString(c, off).Ok?
    ensures off < |c| && c[off] > 32
  {
  }

  /** `t` is what stands between two places. */
  lemma Between(c: Bytes, i: nat, j: nat)
    requires i <= j <= |c|
    ensures At(c, i, c[i..j]) && |c[i..j]| == j - i
  {
  }

  // ----- values

  /** `s` is what was read at `off`: its text stands there, and it denotes the value. */
  ghost predicate ReadAs(c: Bytes, off: nat, s: Syntax, r: Parsed<Value>) {
    && r.Ok? && GoodSyntax(s) && At(c, off, Text(s)) && off + |Text(s)| == r.next && Denoted(s) == r.value
  }

  predicate Fits(d: nat, n: nat) {
    n == 0 || d + n <= 1000
  }

  /** What the parser accepts as a value is a text that denotes it, and nests no deeper than is left. */
  lemma {:induction false} ValueFound(c: Bytes, off: nat, d: nat) returns (s: Syntax)
    requires ParseValue(c, off, d).Ok?
    ensures ReadAs(c, off, s, ParseValue(c, off, d)) && Fits(d, Nesting(ParseValue(c, off, d).value))
    decreases |c| - off, 2
  {
    hide ParseArray, ParseObject, ParseString, ParseNumber, NumeralText, NumeralValue, Quoted, Denotations, Acceptable,
         UpToNul;
    if off + 4 <= |c| && c[off..off + 4] == NULL_TEXT {
      s := NullWord;
    } else if off + 5 <= |c| && c[off..off + 5] == FALSE_TEXT {
      s := FalseWord;
    } else if off + 4 <= |c| && c[off..off + 4] == TRUE_TEXT {
      s := TrueWord;
    } else if c[off] == QUOTE {
      var q := QuotationFound(c, off);
      s := StringOf(q);
    } else if c[off] == MINUS || IsDigit(c[off]) {
      var n := NumeralFound(c, off);
      s := NumberOf(n);
    } else if c[off] == LBRACKET {
      s := ArrayFound(c, off, d);
    } else {
      s := ObjectFound(c, off, d);
    }
  }

  /** A bracket, what is inside, and the closing one, put together. */
  lemma Closed(c: Bytes, off: nat, open: Byte, inner: Bytes, close: Byte)
    requires ByteAt(c, off, open) && At(c, off + 1, inner) && ByteAt(c, off + 1 + |inner|, close)
    ensures At(c, off, [open] + (inner + [close]))
  {
    assert c[off..off + 1] == [open] && c[off + 1 + |inner|..off + 2 + |inner|] == [close];
    assert At(c, off, [open]) && At(c, off + 1 + |inner|, [close]);
    hide At;
    AtParts(c, off + 1, inner, [close]);
    AtParts(c, off, [open], inner + [close]);
  }

  lemma {:induction false} ArrayFound(c: Bytes, off: nat, d: nat) returns (s: Syntax)
    requires ByteAt(c, off, LBRACKET) && ParseArray(c, off, d).Ok?
    ensures ReadAs(c, off, s, ParseArray(c, off, d)) && Fits(d, Nesting(ParseArray(c, off, d).value))
    decreases |c| - off, 1
  {
    hide At, SkipBlanks, ParseItems, ElementsText, Spaces, Text, GoodSyntax, Denoted, GoodItems, DenotedItems,
         NestingItems;
    var first := SkipBlanks(c, off + 1);
    if c[first] == RBRACKET {
      var gap := c[off + 1..first];
      SkippedBlank(c, off + 1);
      Between(c, off + 1, first);
      Closed(c, off, LBRACKET, gap, RBRACKET);
      s := ArrayOf(gap, NoMore);
      EmptyArray(gap);
    } else {
      var items := ItemsFound(c, off + 1, d + 1);
      Closed(c, off, LBRACKET, ElementsText(items), RBRACKET);
      s := ArrayOf([], items);
      FullArray(items);
    }
  }

  lemma EmptyArray(gap: Bytes)
    requires Spaces(gap)
    ensures var s := ArrayOf(gap, NoMore);
            GoodSyntax(s) && Text(s) == [LBRACKET] + (gap + [RBRACKET]) && Denoted(s) == Array(NoItems)
    ensures NestingItems(NoItems) == 0
  {
  }

  lemma FullArray(items: SyntaxItems)
    requires items.Element? && GoodItems(items)
    ensures var s := ArrayOf([], items);
            && GoodSyntax(s) && Text(s) == [LBRACKET] + (ElementsText(items) + [RBRACKET])
            && Denoted(s) == Array(DenotedItems(items))
  {
  }

  lemma NoBlank()
    ensures Spaces([])
  {
  }

  /** `items` is what was read at `off`, up to the closing bracket. */
  ghost predicate ItemsReadAs(c: Bytes, off: nat, items: SyntaxItems, r: Parsed<Items>) {
    && r.Ok? && items.Element? && GoodItems(items) && At(c, off, ElementsText(items))
    && ByteAt(c, off + |ElementsText(items)|, RBRACKET) && off + |ElementsText(items)| + 1 == r.next
    && DenotedItems(items) == r.value
  }

  lemma {:induction false} ItemsFound(c: Bytes, off: nat, d: nat) returns (items: SyntaxItems)
    requires ParseItems(c, off, d).Ok? && d <= 1000
    ensures ItemsReadAs(c, off, items, ParseItems(c, off, d)) && d + NestingItems(ParseItems(c, off, d).value) <= 1000
    decreases |c| - off, 3
  {
    hide At, SkipBlanks, ParseValue, Text, GoodSyntax, Denoted, Spaces, Nesting;
    var v := SkipBlanks(c, off);
    ValueStarts(c, v, d);
    SkippedBlank(c, off);
    var next := ParseValue(c, v, d).next;
    var s := ValueFound(c, v, d);
    var p := SkipBlanks(c, next);
    SkippedBlank(c, next);
    var before, after := c[off..v], c[next..p];
    Between(c, off, v);
    Between(c, next, p);
    var rest := NoMore;
    if ByteAt(c, p, COMMA) {
      rest := ItemsFound(c, p + 1, d);
      CommaAt(c, p, ElementsText(rest));
    } else {
      Between(c, p, p);
    }
    items := Element(before, s, after, rest);
    hide ElementsText, MoreElements, GoodItems, DenotedItems, NestingItems;
    ElementJoin(c, off, items, v, next, p);
    ElementMeans(before, s, after, rest);
  }

  lemma ElementMeans(before: Bytes, s: Syntax, after: Bytes, rest: SyntaxItems)
    requires Spaces(before) && GoodSyntax(s) && Spaces(after) && GoodItems(rest)
    ensures GoodItems(Element(before, s, after, rest))
    ensures DenotedItems(Element(before, s, after, rest)) == Item(Denoted(s), DenotedItems(rest))
    ensures NestingItems(Item(Denoted(s), DenotedItems(rest))) ==
            Max(Nesting(Denoted(s)), NestingItems(DenotedItems(rest)))
    ensures DenotedItems(NoMore) == NoItems && NestingItems(NoItems) == 0
  {
  }

  lemma CommaAt(c: Bytes, p: nat, t: Bytes)
    requires ByteAt(c, p, COMMA) && At(c, p + 1, t)
    ensures At(c, p, [COMMA] + t)
  {
    assert c[p..p + 1] == [COMMA];
    assert At(c, p, [COMMA]);
    AtParts(c, p, [COMMA], t);
  }

  lemma ElementJoin(c: Bytes, off: nat, items: SyntaxItems, v: nat, next: nat, p: nat)
    requires items.Element? && off + |items.before| == v && v + |Text(items.value)| == next && next + |items.after| == p
    requires At(c, off, items.before) && At(c, v, Text(items.value)) && At(c, next, items.after)
    requires At(c, p, MoreElements(items.rest))
    ensures At(c, off, ElementsText(items)) && off + |ElementsText(items)| == p + |MoreElements(items.rest)|
  {
    hide At, Text, MoreElements;
    Chain(c, v, Text(items.value), items.after, MoreElements(items.rest));
    AtParts(c, off, items.before, Text(items.value) + (items.after + MoreElements(items.rest)));
  }

  lemma {:induction false} ObjectFound(c: Bytes, off: nat, d: nat) returns (s: Syntax)
    requires ByteAt(c, off, LBRACE) && ParseObject(c, off, d).Ok?
    ensures ReadAs(c, off, s, ParseObject(c, off, d)) && Fits(d, Nesting(ParseObject(c, off, d).value))
    decreases |c| - off, 1
  {
    hide At, SkipBlanks, ParseMembers, PairingsText, Spaces, Text, GoodSyntax, Denoted, GoodMembers, DenotedMembers,
         NestingMembers;
    var first := SkipBlanks(c, off + 1);
    if c[first] == RBRACE {
      var gap := c[off + 1..first];
      SkippedBlank(c, off + 1);
      Between(c, off + 1, first);
      Closed(c, off, LBRACE, gap, RBRACE);
      s := ObjectOf(gap, NoneLeft);
      EmptyObject(gap);
    } else {
      var members := MembersFound(c, off + 1, d + 1);
      Closed(c, off, LBRACE, PairingsText(members), RBRACE);
      s := ObjectOf([], members);
      FullObject(members);
    }
  }

  lemma FullObject(members: SyntaxMembers)
    requires members.Pairing? && GoodMembers(members)
    ensures var s := ObjectOf([], members);
            && GoodSyntax(s) && Text(s) == [LBRACE] + (PairingsText(members) + [RBRACE])
            && Denoted(s) == Object(DenotedMembers(members))
  {
  }

  lemma EmptyObject(gap: Bytes)
    requires Spaces(gap)
    ensures var s := ObjectOf(gap, NoneLeft);
            GoodSyntax(s) && Text(s) == [LBRACE] + (gap + [RBRACE]) && Denoted(s) == Object(NoMembers)
    ensures NestingMembers(NoMembers) == 0
  {
  }

  /** `m` is what was read at `off`, up to the closing brace. */
  ghost predicate MembersReadAs(c: Bytes, off: nat, m: SyntaxMembers, r: Parsed<Members>) {
    && r.Ok? && m.Pairing? && GoodMembers(m) && At(c, off, PairingsText(m))
    && ByteAt(c, off + |PairingsText(m)|, RBRACE) && off + |PairingsText(m)| + 1 == r.next
    && DenotedMembers(m) == r.value
  }

  /** Where the parts of a name-value pair begin. */
  datatype Places = Places(key: nat, afterKey: nat, colon: nat, value: nat)

  /** The name and the colon in front of a value. */
  ghost predicate NameReadAs(c: Bytes, off: nat, at: Places, name: Quotation) {
    && off <= at.key < |c| && at.key <= at.afterKey <= at.colon < at.value < |c|
    && Acceptable(name) && At(c, at.key, Quoted(name)) && at.key + |Quoted(name)| == at.afterKey
    && Spaces(c[off..at.key]) && Spaces(c[at.afterKey..at.colon]) && Spaces(c[at.colon + 1..at.value])
    && ByteAt(c, at.colon, COLON)
  }

  lemma NameFound(c: Bytes, off: nat, d: nat) returns (at: Places, name: Quotation)
    requires ParseMembers(c, off, d).Ok?
    ensures NameReadAs(c, off, at, name) && ParseValue(c, at.value, d).Ok?
    ensures var key, v := UpToNul(Denotations(name.pieces)), ParseValue(c, at.value, d);
            var p := SkipBlanks(c, v.next);
            if ByteAt(c, p, COMMA) then
              && var more := ParseMembers(c, p + 1, d);
                 more.Ok? && ParseMembers(c, off, d) == Ok(Member(key, v.value, more.value), more.next)
            else ByteAt(c, p, RBRACE) && ParseMembers(c, off, d) == Ok(Member(key, v.value, NoMembers), p + 1)
  {
    hide At, SkipBlanks, ParseValue, ParseString, Spaces, Quoted, Acceptable, Denotations, UpToNul;
    var key := SkipBlanks(c, off);
    StringStarts(c, key);
    SkippedBlank(c, off);
    name := QuotationFound(c, key);
    var k := ParseString(c, key).next;
    var colon := SkipBlanks(c, k);
    SkippedBlank(c, k);
    var v := SkipBlanks(c, colon + 1);
    ValueStarts(c, v, d);
    SkippedBlank(c, colon + 1);
    at := Places(key, k, colon, v);
  }

  lemma {:induction false} MembersFound(c: Bytes, off: nat, d: nat) returns (m: SyntaxMembers)
    requires ParseMembers(c, off, d).Ok? && d <= 1000
    ensures MembersReadAs(c, off, m, ParseMembers(c, off, d))
    ensures d + NestingMembers(ParseMembers(c, off, d).value) <= 1000
    decreases |c| - off, 3
  {
    hide At, SkipBlanks, ParseValue, ParseMembers, Text, GoodSyntax, Denoted, Spaces, Nesting, Quoted, Acceptable,
         Denotations, UpToNul;
    var at, name := NameFound(c, off, d);
    var s := ValueFound(c, at.value, d);
    var next := ParseValue(c, at.value, d).next;
    var p := SkipBlanks(c, next);
    SkippedBlank(c, next);
    var more := NoneLeft;
    if ByteAt(c, p, COMMA) {
      more := MembersFound(c, p + 1, d);
      CommaAt(c, p, PairingsText(more));
    } else {
      Between(c, p, p);
    }
    m := Pairing(c[off..at.key], name, c[at.afterKey..at.colon], c[at.colon + 1..at.value], s, c[next..p], more);
    hide PairingsText, MorePairings, DenotedMembers, NestingMembers;
    PairingJoin(c, off, m, at, next, p);
    PairingMeans(m);
  }

  lemma PairingMeans(m: SyntaxMembers)
    requires m.Pairing? && GoodMembers(m)
    ensures DenotedMembers(m) ==
            Member(UpToNul(Denotations(m.name.pieces)), Denoted(m.value), DenotedMembers(m.more))
    ensures NestingMembers(DenotedMembers(m)) ==
            Max(Nesting(Denoted(m.value)), NestingMembers(DenotedMembers(m.more)))
    ensures DenotedMembers(NoneLeft) == NoMembers && NestingMembers(NoMembers) == 0
  {
  }

  lemma PairingJoin(c: Bytes, off: nat, m: SyntaxMembers, at: Places, next: nat, p: nat)
    requires m.Pairing? && NameReadAs(c, off, at, m.name) && m.before == c[off..at.key]
    requires m.beforeColon == c[at.afterKey..at.colon] && m.afterColon == c[at.colon + 1..at.value]
    requires At(c, at.value, Text(m.value)) && at.value + |Text(m.value)| == next <= p <= |c| && m.after == c[next..p]
    requires At(c, p, MorePairings(m.more))
    ensures At(c, off, PairingsText(m)) && off + |PairingsText(m)| == p + |MorePairings(m.more)|
  {
    hide At, Text, Quoted, MorePairings, Acceptable, Spaces;
    ColonAt(c, at.colon);
    Between(c, off, at.key);
    Between(c, at.afterKey, at.colon);
    Between(c, at.colon + 1, at.value);
    Between(c, next, p);
    var f := Text(m.value) + (m.after + MorePairings(m.more));
    var d := [COLON] + (m.afterColon + f);
    Chain(c, at.value, Text(m.value), m.after, MorePairings(m.more));
    Chain(c, at.colon, [COLON], m.afterColon, f);
    Chain(c, at.key, Quoted(m.name), m.beforeColon, d);
    AtParts(c, off, m.before, Quoted(m.name) + (m.beforeColon + d));
  }

  lemma ColonAt(c: Bytes, i: nat)
    requires ByteAt(c, i, COLON)
    ensures At(c, i, [COLON])
  {
    assert c[i..i + 1] == [COLON];
  }

  /** Three texts, one behind the other. */
  lemma Chain(c: Bytes, i: nat, x: Bytes, y: Bytes, z: Bytes)
    requires At(c, i, x) && At(c, i + |x|, y) && At(c, i + |x| + |y|, z)
    ensures At(c, i, x + (y + z)) && |x + (y + z)| == |x| + |y| + |z|
  {
    hide At;
    AtParts(c, i + |x|, y, z);
    AtParts(c, i, x, y + z);
  }
}
