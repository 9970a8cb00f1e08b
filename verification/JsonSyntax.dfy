/** The JSON texts the parser takes, described without the parser: any bytes up to a space between tokens, any
    number syntax, any escapes.  RFC 8259 allows fewer (JsonDocument says which).  Every such text is
    accepted with the value it denotes, up to the nesting limit and no further. */
module JsonSyntax {
  import opened JsonValue
  import opened JsonUnicode
  import opened JsonLiteral
  import opened JsonMeaning
  import opened JsonQuotation
  import opened JsonGrammar

  /** The bytes of ASCII characters. */
  function Ascii(s: string): Bytes
    requires forall k :: 0 <= k < |s| ==> s[k] < 128 as char
  {
    seq(|s|, k requires 0 <= k < |s| => s[k] as int)
  }

  /** The structural characters, the words and the quotes are those of RFC 8259. */
  lemma Characters()
    ensures [LBRACKET, RBRACKET, LBRACE, RBRACE, COMMA, COLON] == Ascii("[]{},:")
    ensures NULL_TEXT == Ascii("null") && FALSE_TEXT == Ascii("false") && TRUE_TEXT == Ascii("true")
    ensures [QUOTE, BACKSLASH, MINUS, SPACE, TAB, NEWLINE] == Ascii("\"\\- \t\n") && BOM == [0xEF, 0xBB, 0xBF]
  {
  }

  // ----- white space

  predicate Spaces(t: Bytes) {
    forall k :: 0 <= k < |t| ==> t[k] <= 32
  }

  // ----- numbers

  datatype Exponent = NoExponent | Exponent(letter: Byte, sign: Bytes, digits: Bytes)

  /** A sign, digits, perhaps a point with digits behind it, and perhaps an exponent. */
  datatype Numeral = Numeral(minus: bool, whole: Bytes, point: bool, fraction: Bytes, exponent: Exponent)

  predicate AllDigits(t: Bytes) {
    forall k :: 0 <= k < |t| ==> '0' as int <= t[k] <= '9' as int
  }

  predicate GoodExponent(e: Exponent) {
    e.Exponent? ==>
      && (e.letter == 69 || e.letter == 101) && (e.sign == [] || e.sign == [43] || e.sign == [MINUS])
      && e.digits != [] && AllDigits(e.digits)
  }

  /** Digits before the point or behind it; before it, unless there is a minus. */
  predicate GoodNumeral(n: Numeral) {
    && AllDigits(n.whole) && AllDigits(n.fraction) && (n.fraction != [] ==> n.point)
    && (n.whole == [] ==> n.minus && n.fraction != []) && GoodExponent(n.exponent)
  }

  function SignText(n: Numeral): Bytes {
    if n.minus then [MINUS] else []
  }

  function FractionText(n: Numeral): Bytes {
    if n.point then [46] + n.fraction else []
  }

  function ExponentText(n: Numeral): Bytes {
    match n.exponent case NoExponent => [] case Exponent(e, sign, digits) => [e] + sign + digits
  }

  function NumeralText(n: Numeral): Bytes {
    SignText(n) + n.whole + FractionText(n) + ExponentText(n)
  }

  /** 10 to the `e`. */
  function Power(e: int): (p: real)
    ensures p > 0.0
    decreases if e < 0 then -e else e
  {
    if e == 0 then 1.0 else if e > 0 then 10.0 * Power(e - 1) else Power(e + 1) / 10.0
  }

  /** The digit at place k behind the point counts for 10 to the -k. */
  function FractionValue(digits: Bytes): real
    requires AllDigits(digits)
  {
    if digits == [] then 0.0
    else
      var k := |digits|;
      assert IsDigit(digits[k - 1]);
      FractionValue(digits[..k - 1]) + (digits[k - 1] - 48) as real * Power(0 - k)
  }

  function Magnitude(n: Numeral): real
    requires GoodNumeral(n)
  {
    DigitsValue(n.whole) as real + FractionValue(n.fraction)
  }

  function ExponentValue(e: Exponent): int
    requires GoodExponent(e)
  {
    match e
    case NoExponent => 0
    case Exponent(_, sign, digits) => if sign == [MINUS] then 0 - DigitsValue(digits) else DigitsValue(digits)
  }

  /** The number a numeral denotes. */
  function NumeralValue(n: Numeral): real
    requires GoodNumeral(n)
  {
    (if n.minus then -Magnitude(n) else Magnitude(n)) * Power(ExponentValue(n.exponent))
  }

  lemma {:induction false} Powers(k: nat)
    ensures Power(k) == PowerOfTen(k) && Power(0 - k) * PowerOfTen(k) == 1.0
  {
    if k > 0 {
      Powers(k - 1);
      var p, q := PowerOfTen(k - 1), Power(0 - (k - 1));
      assert 0 - k + 1 == 0 - (k - 1);
      assert Power(0 - k) == q / 10.0 && PowerOfTen(k) == 10.0 * p;
      Tenth(q, p);
    }
  }

  lemma Tenth(q: real, p: real)
    ensures q / 10.0 * (10.0 * p) == q * p
  {
  }

  /** Dividing by a power of ten is multiplying by the power with the exponent's sign turned. */
  lemma Divided(x: real, k: nat)
    ensures x / PowerOfTen(k) == x * Power(0 - k)
  {
    Powers(k);
    var p, q := PowerOfTen(k), Power(0 - k);
    hide Power, PowerOfTen;
    Quotient(x, p, q);
  }

  lemma Quotient(x: real, p: real, q: real)
    requires p > 0.0 && q * p == 1.0
    ensures x / p == x * q
  {
    assert x == x * (q * p) == (x * q) * p;
    assert (x * q) * p / p == x * q;
  }

  /** How the parser computes it. */
  lemma ScaledValue(d: real, negative: bool, k: nat)
    ensures Scaled(d, negative, k) == d * Power(if negative then 0 - k else k)
  {
    Powers(k);
    Divided(d, k);
    hide Power, PowerOfTen;
  }

  lemma {:induction false} FractionDigits(digits: Bytes)
    requires AllDigits(digits)
    ensures DigitsValue(digits) as real / PowerOfTen(|digits|) == FractionValue(digits)
  {
    var k := |digits|;
    if k == 0 {
      assert DigitsValue(digits) == 0;
    } else {
      var front := digits[..k - 1];
      assert IsDigit(digits[k - 1]);
      FractionDigits(front);
      var a, x := DigitsValue(front), digits[k - 1] - 48;
      assert DigitsValue(digits) == a * 10 + x && PowerOfTen(k) == 10.0 * PowerOfTen(k - 1);
      Divided(x as real, k);
      hide PowerOfTen, Power, DigitsValue;
      assert (a * 10 + x) as real == a as real * 10.0 + x as real;
      OneMoreDigit(a as real, x as real, PowerOfTen(k - 1));
    }
  }

  lemma OneMoreDigit(a: real, x: real, p: real)
    requires p > 0.0
    ensures (a * 10.0 + x) / (10.0 * p) == a / p + x / (10.0 * p)
  {
    var y := a / p;
    assert a == y * p;
    assert a * 10.0 == y * (10.0 * p);
    SumOver(y, x, 10.0 * p);
  }

  lemma SumOver(y: real, x: real, q: real)
    requires q > 0.0
    ensures (y * q + x) / q == y + x / q
  {
    var z := x / q;
    assert x == z * q;
    assert y * q + x == (y + z) * q;
    assert (y + z) * q / q == y + z;
  }

  lemma {:induction false} DigitsEndAt(s: Bytes, i: nat, j: nat)
    requires i <= j <= |s| && (forall k :: i <= k < j ==> IsDigit(s[k])) && (j < |s| ==> !IsDigit(s[j]))
    ensures DigitsEnd(s, i) == j
    decreases j - i
  {
    if i < j {
      DigitsEndAt(s, i + 1, j);
    }
  }

  /** A run of digits inside a numeral. */
  lemma RunOf(a: Bytes, digits: Bytes, b: Bytes)
    requires AllDigits(digits) && (b != [] ==> !IsDigit(b[0]))
    ensures var s := a + digits + b;
            DigitsEnd(s, |a|) == |a| + |digits| && Run(s, |a|) == DigitsValue(digits)
  {
    var s := a + digits + b;
    DigitsEndAt(s, |a|, |a| + |digits|);
    assert s[|a|..|a| + |digits|] == digits;
  }

  lemma NumeralStart(n: Numeral)
    requires GoodNumeral(n)
    ensures var s, w := NumeralText(n), |SignText(n)| + |n.whole|;
            && s != [] && (s[0] == 43 || s[0] == MINUS <==> n.minus) && (s[0] == MINUS <==> n.minus)
            && DigitsEnd(s, |SignText(n)|) == w && Run(s, |SignText(n)|) == DigitsValue(n.whole)
            && (w < |s| && s[w] == 46 <==> n.point)
  {
    var s, rest := NumeralText(n), FractionText(n) + ExponentText(n);
    assert s == SignText(n) + n.whole + rest;
    assert !n.minus ==> s[0] == n.whole[0];
    RunOf(SignText(n), n.whole, rest);
    hide Run, DigitsEnd;
    assert rest != [] ==> s[|SignText(n)| + |n.whole|] == rest[0];
    assert !n.point ==> rest == ExponentText(n);
  }

  lemma NumeralFraction(n: Numeral)
    requires GoodNumeral(n) && n.point
    ensures var s, w := NumeralText(n), |SignText(n)| + |n.whole|;
            DigitsEnd(s, w + 1) == w + 1 + |n.fraction| && Run(s, w + 1) == DigitsValue(n.fraction)
  {
    hide Run, DigitsEnd, DigitsValue;
    var a, e := SignText(n) + n.whole, ExponentText(n);
    assert a + ([46] + n.fraction) + e == a + [46] + n.fraction + e;
    RunOf(a + [46], n.fraction, e);
  }

  lemma NumeralExponent(n: Numeral)
    requires GoodNumeral(n)
    ensures var s, m := NumeralText(n), |SignText(n)| + |n.whole| + |FractionText(n)|;
            match n.exponent
            case NoExponent => m == |s|
            case Exponent(e, sign, digits) =>
              && m + 1 < |s| && s[m] == e && |s| == m + 1 + |sign| + |digits|
              && (s[m + 1] == 43 || s[m + 1] == MINUS <==> sign != []) && (s[m + 1] == MINUS <==> sign == [MINUS])
              && DigitsEnd(s, m + 1 + |sign|) == |s| && Run(s, m + 1 + |sign|) == DigitsValue(digits)
  {
    hide Run, DigitsEnd, DigitsValue;
    if n.exponent.Exponent? {
      var front := SignText(n) + n.whole + FractionText(n);
      ExponentAt(front, n.exponent.letter, n.exponent.sign, n.exponent.digits);
      assert NumeralText(n) == front + ([n.exponent.letter] + n.exponent.sign + n.exponent.digits);
    }
  }

  lemma ExponentAt(front: Bytes, e: Byte, sign: Bytes, digits: Bytes)
    requires (sign == [] || sign == [43] || sign == [MINUS]) && digits != [] && AllDigits(digits)
    ensures var s, m := front + ([e] + sign + digits), |front|;
            && m + 1 < |s| && s[m] == e && |s| == m + 1 + |sign| + |digits|
            && (s[m + 1] == 43 || s[m + 1] == MINUS <==> sign != []) && (s[m + 1] == MINUS <==> sign == [MINUS])
            && DigitsEnd(s, m + 1 + |sign|) == |s| && Run(s, m + 1 + |sign|) == DigitsValue(digits)
  {
    var s, a := front + ([e] + sign + digits), front + [e] + sign;
    assert s == a + digits + [];
    RunOf(a, digits, []);
    hide Run, DigitsEnd, DigitsValue;
    assert s[|front|] == e;
    if sign == [] {
      assert s[|front| + 1] == digits[0];
    } else {
      assert s[|front| + 1] == sign[0];
    }
  }

  lemma MantissaOf(n: Numeral)
    requires GoodNumeral(n)
    ensures Mantissa(NumeralText(n)) ==
            (if n.minus then -Magnitude(n) else Magnitude(n), |SignText(n)| + |n.whole| + |FractionText(n)|)
  {
    hide NumeralText, DigitsEnd, Run, DigitsValue, PowerOfTen, Power, AllDigits, Mantissa, FractionValue;
    NumeralStart(n);
    NoDigits();
    FractionDigits(n.fraction);
    if n.point {
      NumeralFraction(n);
      WithPoint(NumeralText(n), n.minus, |SignText(n)|, |n.whole|, |n.fraction|);
    } else {
      WithoutPoint(NumeralText(n), n.minus, |SignText(n)|, |n.whole|);
    }
  }

  lemma NoDigits()
    ensures FractionValue([]) == 0.0
  {
  }

  lemma WithPoint(s: Bytes, minus: bool, start: nat, whole: nat, fraction: nat)
    requires s != [] && (s[0] == 43 || s[0] == MINUS <==> minus) && (s[0] == MINUS <==> minus)
    requires start == (if minus then 1 else 0) && start + whole < |s| && s[start + whole] == 46
    requires whole > 0 || fraction > 0
    requires DigitsEnd(s, start) == start + whole && DigitsEnd(s, start + whole + 1) == start + whole + 1 + fraction
    ensures var d := Run(s, start) as real + Run(s, start + whole + 1) as real / PowerOfTen(fraction);
            Mantissa(s) == (if minus then -d else d, start + whole + 1 + fraction)
  {
    hide DigitsEnd, Run, PowerOfTen;
  }

  lemma WithoutPoint(s: Bytes, minus: bool, start: nat, whole: nat)
    requires s != [] && (s[0] == 43 || s[0] == MINUS <==> minus) && (s[0] == MINUS <==> minus)
    requires start == (if minus then 1 else 0) && start + whole <= |s| && whole > 0
    requires DigitsEnd(s, start) == start + whole && !(start + whole < |s| && s[start + whole] == 46)
    ensures var d := Run(s, start) as real + 0.0; Mantissa(s) == (if minus then -d else d, start + whole)
  {
    hide DigitsEnd, Run, PowerOfTen;
  }

  /** strtod reads a numeral to its end, and as the number it denotes. */
  lemma StrtodNumeral(n: Numeral)
    requires GoodNumeral(n)
    ensures Strtod(NumeralText(n)) == (NumeralValue(n), |NumeralText(n)|)
  {
    hide NumeralText, Mantissa, Magnitude, DigitsEnd, Run, DigitsValue, Scaled, Strtod, Power;
    MantissaOf(n);
    NumeralExponent(n);
    var s, m := NumeralText(n), |SignText(n)| + |n.whole| + |FractionText(n)|;
    var d := if n.minus then -Magnitude(n) else Magnitude(n);
    assert NumeralValue(n) == d * Power(ExponentValue(n.exponent));
    match n.exponent
    case NoExponent =>
      WithoutExponent(s, d, m);
      ToTheZero(d);
    case Exponent(e, sign, digits) =>
      WithExponent(s, d, m, |sign|, sign == [MINUS], DigitsValue(digits));
      ScaledValue(d, sign == [MINUS], DigitsValue(digits));
      var x := if sign == [MINUS] then 0 - DigitsValue(digits) else DigitsValue(digits);
      assert Scaled(d, sign == [MINUS], DigitsValue(digits)) == d * Power(x) == NumeralValue(n);
  }

  lemma ToTheZero(d: real)
    ensures d * Power(0) == d
  {
  }

  lemma WithoutExponent(s: Bytes, d: real, m: nat)
    requires Mantissa(s) == (d, m) && m == |s|
    ensures Strtod(s) == (d, m)
  {
    hide Mantissa, DigitsEnd, Run, Scaled;
  }

  lemma WithExponent(s: Bytes, d: real, m: nat, signed: nat, negative: bool, exponent: nat)
    requires Mantissa(s) == (d, m) && 0 < m && m + 1 + signed < |s| && (s[m] == 69 || s[m] == 101) && signed <= 1
    requires (s[m + 1] == 43 || s[m + 1] == MINUS <==> signed == 1) && (s[m + 1] == MINUS <==> negative)
    requires DigitsEnd(s, m + 1 + signed) == |s| && Run(s, m + 1 + signed) == exponent
    ensures Strtod(s) == (Scaled(d, negative, exponent), |s|)
  {
    hide Mantissa, DigitsEnd, Run, Scaled;
  }

  lemma {:induction false} NumberEndAt(c: Bytes, i: nat, j: nat, room: nat)
    requires i <= j < |c| && j - i <= room
    requires forall k :: i <= k < j ==> IsNumberByte(c[k])
    requires !IsNumberByte(c[j])
    ensures NumberEnd(c, i, room) == j
    decreases j - i
  {
    if i < j {
      NumberEndAt(c, i + 1, j, room - 1);
    }
  }

  lemma NumeralBytes(n: Numeral)
    requires GoodNumeral(n)
    ensures forall k :: 0 <= k < |NumeralText(n)| ==> IsNumberByte(NumeralText(n)[k])
  {
  }

  /** A numeral of at most 63 bytes is read as the number it denotes. */
  lemma NumberAccepted(c: Bytes, off: nat, n: Numeral)
    requires GoodNumeral(n) && |NumeralText(n)| <= 63 && At(c, off, NumeralText(n)) && off + |NumeralText(n)| < |c|
    requires !IsNumberByte(c[off + |NumeralText(n)|])
    ensures ParseNumber(c, off) == Ok(Number(NumeralValue(n)), off + |NumeralText(n)|) && |NumeralText(n)| > 0
  {
    var t := NumeralText(n);
    var end := off + |t|;
    NumeralBytes(n);
    forall k | off <= k < end
      ensures IsNumberByte(c[k])
    {
      AtByte(c, off, t, k - off);
    }
    NumberEndAt(c, off, end, 63);
    StrtodNumeral(n);
    hide Strtod, NumeralText, NumeralValue;
  }

  // ----- values

  datatype Syntax =
    | NullWord | FalseWord | TrueWord
    | NumberOf(numeral: Numeral)
    | StringOf(literal: Quotation)
    | ArrayOf(gap: Bytes, items: SyntaxItems)
    | ObjectOf(gap: Bytes, members: SyntaxMembers)

  /** Elements with the white space around them; `gap` above is that in an empty array or object. */
  datatype SyntaxItems = NoMore | Element(before: Bytes, value: Syntax, after: Bytes, rest: SyntaxItems)

  datatype SyntaxMembers =
    | NoneLeft
    | Pairing(before: Bytes, name: Quotation, beforeColon: Bytes, afterColon: Bytes, value: Syntax, after: Bytes,
              more: SyntaxMembers)

  function Text(s: Syntax): (t: Bytes)
    decreases s, 1
  {
    match s
    case NullWord => NULL_TEXT
    case FalseWord => FALSE_TEXT
    case TrueWord => TRUE_TEXT
    case NumberOf(n) => NumeralText(n)
    case StringOf(q) => Quoted(q)
    case ArrayOf(gap, items) => [LBRACKET] + ((if items.NoMore? then gap else ElementsText(items)) + [RBRACKET])
    case ObjectOf(gap, members) => [LBRACE] + ((if members.NoneLeft? then gap else PairingsText(members)) + [RBRACE])
  }

  function ElementsText(items: SyntaxItems): Bytes
    decreases items, 0
  {
    match items
    case NoMore => []
    case Element(before, value, after, rest) => before + (Text(value) + (after + MoreElements(rest)))
  }

  function MoreElements(rest: SyntaxItems): Bytes
    decreases rest, 1
  {
    if rest.NoMore? then [] else [COMMA] + ElementsText(rest)
  }

  function PairingsText(members: SyntaxMembers): Bytes
    decreases members, 0
  {
    match members
    case NoneLeft => []
    case Pairing(before, name, beforeColon, afterColon, value, after, more) =>
      before + (Quoted(name) + (beforeColon + ([COLON] + (afterColon + (Text(value) + (after + MorePairings(more)))))))
  }

  function MorePairings(more: SyntaxMembers): Bytes
    decreases more, 1
  {
    if more.NoneLeft? then [] else [COMMA] + PairingsText(more)
  }

  /** Blanks are blanks, numerals numerals and of at most 63 bytes, and literals are taken by the parser. */
  predicate GoodSyntax(s: Syntax)
    decreases s, 0
  {
    match s
    case NumberOf(n) => GoodNumeral(n) && |NumeralText(n)| <= 63
    case StringOf(q) => Acceptable(q)
    case ArrayOf(gap, items) => Spaces(gap) && GoodItems(items)
    case ObjectOf(gap, members) => Spaces(gap) && GoodMembers(members)
    case _ => true
  }

  predicate GoodItems(items: SyntaxItems)
    decreases items, 0
  {
    items.Element? ==> Spaces(items.before) && GoodSyntax(items.value) && Spaces(items.after) && GoodItems(items.rest)
  }

  predicate GoodMembers(members: SyntaxMembers)
    decreases members, 0
  {
    members.Pairing? ==>
      && Spaces(members.before) && Acceptable(members.name) && Spaces(members.beforeColon)
      && Spaces(members.afterColon) && GoodSyntax(members.value) && Spaces(members.after) && GoodMembers(members.more)
  }

  /** The value a text denotes.  C strings end at a NUL, so a string ends where it denotes one. */
  function Denoted(s: Syntax): Value
    requires GoodSyntax(s)
    decreases s, 0
  {
    match s
    case NullWord => Null
    case FalseWord => False
    case TrueWord => True
    case NumberOf(n) => Number(NumeralValue(n))
    case StringOf(q) => String(UpToNul(Denotations(q.pieces)))
    case ArrayOf(_, items) => Array(DenotedItems(items))
    case ObjectOf(_, members) => Object(DenotedMembers(members))
  }

  function DenotedItems(items: SyntaxItems): Items
    requires GoodItems(items)
    decreases items, 0
  {
    match items case NoMore => NoItems case Element(_, v, _, rest) => Item(Denoted(v), DenotedItems(rest))
  }

  function DenotedMembers(members: SyntaxMembers): Members
    requires GoodMembers(members)
    decreases members, 0
  {
    match members
    case NoneLeft => NoMembers
    case Pairing(_, name, _, _, v, _, more) =>
      Member(UpToNul(Denotations(name.pieces)), Denoted(v), DenotedMembers(more))
  }

  // ----- blanks and words

  ghost predicate Blank(c: Bytes, i: nat, j: nat) {
    i <= j <= |c| && forall k :: i <= k < j ==> c[k] <= 32
  }

  lemma {:induction false} BlankEndAt(c: Bytes, i: nat, j: nat)
    requires Blank(c, i, j) && j < |c| && c[j] > 32
    ensures BlankEnd(c, i) == j
    decreases j - i
  {
    if i < j {
      BlankEndAt(c, i + 1, j);
    }
  }

  /** White space is skipped, up to a byte that is not. */
  lemma SpacesSkipped(c: Bytes, i: nat, t: Bytes)
    requires Spaces(t) && At(c, i, t) && i + |t| < |c| && c[i + |t|] > 32
    ensures SkipBlanks(c, i) == i + |t|
  {
    forall k | i <= k < i + |t|
      ensures c[k] <= 32
    {
      AtByte(c, i, t, k - i);
    }
    BlankEndAt(c, i, i + |t|);
  }

  /** Neither white space nor what comes behind it continues a number. */
  lemma NoNumberByte(c: Bytes, i: nat, t: Bytes)
    requires Spaces(t) && At(c, i, t) && i + |t| < |c| && !IsNumberByte(c[i + |t|])
    ensures i < |c| && !IsNumberByte(c[i])
  {
    if t != [] {
      AtByte(c, i, t, 0);
    }
  }

  /** A value that does not start like a word is not taken for one. */
  lemma NotAWord(c: Bytes, off: nat)
    requires off < |c|
    ensures c[off] != 110 ==> !(off + 4 <= |c| && c[off..off + 4] == NULL_TEXT)
    ensures c[off] != 102 ==> !(off + 5 <= |c| && c[off..off + 5] == FALSE_TEXT)
    ensures c[off] != 116 ==> !(off + 4 <= |c| && c[off..off + 4] == TRUE_TEXT)
  {
    assert off + 4 <= |c| ==> c[off..off + 4][0] == c[off];
    assert off + 5 <= |c| ==> c[off..off + 5][0] == c[off];
  }

  lemma FirstByte(s: Syntax)
    requires GoodSyntax(s)
    ensures |Text(s)| >= 1
    ensures var b := Text(s)[0]; 32 < b < 128 && b != RBRACKET && (s.NumberOf? ==> b == MINUS || IsDigit(b))
  {
  }

  // ----- every text is accepted

  /** The answer expected at nesting depth `d` for something that nests `n` deep. */
  function Expected<T>(d: nat, n: nat, value: T, next: nat): Parsed<T> {
    if d + n <= 1000 then Ok(value, next) else Fail
  }

  lemma ScalarAccepted(c: Bytes, off: nat, s: Syntax, d: nat)
    requires GoodSyntax(s) && !s.ArrayOf? && !s.ObjectOf? && At(c, off, Text(s))
    requires s.NumberOf? ==> off + |Text(s)| < |c| && !IsNumberByte(c[off + |Text(s)|])
    ensures ParseValue(c, off, d) == Ok(Denoted(s), off + |Text(s)|)
  {
    FirstByte(s);
    AtByte(c, off, Text(s), 0);
    NotAWord(c, off);
    hide ParseArray, ParseObject, NumeralText, NumeralValue, ParseString, ParseNumber;
    match s
    case StringOf(q) => QuotationMeaning(c, off, q);
    case NumberOf(n) => NumberAccepted(c, off, n);
    case _ =>
  }

  /** Every text, anywhere in a longer one and at any depth, is parsed to its end as the value it denotes, if it
      nests at most 1000 deep, and fails otherwise. */
  lemma {:induction false} ValueAccepted(c: Bytes, off: nat, s: Syntax, d: nat)
    requires GoodSyntax(s) && d <= NESTING_LIMIT && At(c, off, Text(s))
    requires s.NumberOf? ==> off + |Text(s)| < |c| && !IsNumberByte(c[off + |Text(s)|])
    ensures ParseValue(c, off, d) == Expected(d, Nesting(Denoted(s)), Denoted(s), off + |Text(s)|)
    decreases s
  {
    hide At, ParseValue, NestingItems, NestingMembers;
    match s
    case ArrayOf(gap, items) => ArrayAccepted(c, off, gap, items, d);
    case ObjectOf(gap, members) => ObjectAccepted(c, off, gap, members, d);
    case _ => ScalarAccepted(c, off, s, d);
  }

  // One unfolding of each parsing function, away from the text.

  lemma ArrayJoin(c: Bytes, off: nat, d: nat, items: Items, end: nat)
    requires ByteAt(c, off, LBRACKET) && off + 1 < |c|
    requires items.NoItems? <==> c[SkipBlanks(c, off + 1)] == RBRACKET
    requires items.NoItems? ==> end == SkipBlanks(c, off + 1) + 1
    requires items.Item? && d < NESTING_LIMIT ==>
               ParseItems(c, off + 1, d + 1) == Expected(d + 1, NestingItems(items), items, end)
    ensures ParseValue(c, off, d) == Expected(d, 1 + NestingItems(items), Array(items), end)
  {
    assert NestingItems(NoItems) == 0;
    hide ParseItems, SkipBlanks, ParseValue, NestingItems, ParseObject, ParseMembers;
    BracketIsArray(c, off, d);
  }

  lemma BracketIsArray(c: Bytes, off: nat, d: nat)
    requires ByteAt(c, off, LBRACKET)
    ensures ParseValue(c, off, d) == ParseArray(c, off, d)
  {
    hide ParseArray, ParseObject, ParseString, ParseNumber;
    NotAWord(c, off);
  }

  lemma ItemsLast(c: Bytes, from: nat, d: nat, head: Value, p: nat, end: nat)
    requires ParseValue(c, SkipBlanks(c, from), d) == Expected(d, Nesting(head), head, p)
    requires SkipBlanks(c, p) == end && ByteAt(c, end, RBRACKET)
    ensures ParseItems(c, from, d) == Expected(d, Nesting(head), Item(head, NoItems), end + 1)
  {
    hide ParseValue, ParseMembers, SkipBlanks;
  }

  lemma ItemsMore(c: Bytes, from: nat, d: nat, head: Value, p: nat, comma: nat, rest: Items, end: nat)
    requires ParseValue(c, SkipBlanks(c, from), d) == Expected(d, Nesting(head), head, p)
    requires SkipBlanks(c, p) == comma && ByteAt(c, comma, COMMA)
    requires ParseItems(c, comma + 1, d) == Expected(d, NestingItems(rest), rest, end)
    ensures ParseItems(c, from, d) == Expected(d, Max(Nesting(head), NestingItems(rest)), Item(head, rest), end)
  {
    hide ParseValue, ParseMembers, SkipBlanks;
  }

  lemma ObjectJoin(c: Bytes, off: nat, d: nat, members: Members, end: nat)
    requires ByteAt(c, off, LBRACE) && off + 1 < |c|
    requires members.NoMembers? <==> c[SkipBlanks(c, off + 1)] == RBRACE
    requires members.NoMembers? ==> end == SkipBlanks(c, off + 1) + 1
    requires members.Member? && d < NESTING_LIMIT ==>
               ParseMembers(c, off + 1, d + 1) == Expected(d + 1, NestingMembers(members), members, end)
    ensures ParseValue(c, off, d) == Expected(d, 1 + NestingMembers(members), Object(members), end)
  {
    assert NestingMembers(NoMembers) == 0;
    hide ParseMembers, SkipBlanks, ParseValue, NestingMembers, ParseArray, ParseItems;
    BraceIsObject(c, off, d);
  }

  lemma BraceIsObject(c: Bytes, off: nat, d: nat)
    requires ByteAt(c, off, LBRACE)
    ensures ParseValue(c, off, d) == ParseObject(c, off, d)
  {
    hide ParseArray, ParseObject, ParseString, ParseNumber;
    NotAWord(c, off);
  }

  /** A name, its colon and its value stand between `from` and `p`. */
  ghost predicate MemberRead(c: Bytes, from: nat, d: nat, key: CString, value: Value, p: nat) {
    var k := ParseString(c, SkipBlanks(c, from));
    && k.Ok? && k.value == key
    && var colon := SkipBlanks(c, k.next);
       ByteAt(c, colon, COLON) &&
       ParseValue(c, SkipBlanks(c, colon + 1), d) == Expected(d, Nesting(value), value, p)
  }

  lemma MembersLast(c: Bytes, from: nat, d: nat, key: CString, value: Value, p: nat, end: nat)
    requires MemberRead(c, from, d, key, value, p)
    requires SkipBlanks(c, p) == end && ByteAt(c, end, RBRACE)
    ensures ParseMembers(c, from, d) == Expected(d, Nesting(value), Member(key, value, NoMembers), end + 1)
  {
    hide ParseValue, ParseItems, ParseString, SkipBlanks;
  }

  lemma MembersMore(c: Bytes, from: nat, d: nat, key: CString, value: Value, p: nat, comma: nat, more: Members,
                    end: nat)
    requires MemberRead(c, from, d, key, value, p)
    requires SkipBlanks(c, p) == comma && ByteAt(c, comma, COMMA)
    requires ParseMembers(c, comma + 1, d) == Expected(d, NestingMembers(more), more, end)
    ensures ParseMembers(c, from, d) ==
            Expected(d, Max(Nesting(value), NestingMembers(more)), Member(key, value, more), end)
  {
    hide ParseValue, ParseItems, ParseString, SkipBlanks;
  }

  /** A bracket, what is inside, and the closing one. */
  lemma Enclosed(c: Bytes, off: nat, open: Byte, inner: Bytes, close: Byte)
    requires At(c, off, [open] + (inner + [close]))
    ensures ByteAt(c, off, open) && off + 1 < |c| && At(c, off + 1, inner) && ByteAt(c, off + 1 + |inner|, close)
  {
    hide At;
    AtParts(c, off, [open], inner + [close]);
    AtParts(c, off + 1, inner, [close]);
    AtByte(c, off, [open], 0);
    AtByte(c, off + 1 + |inner|, [close], 0);
  }

  /** What comes first inside is what comes first behind the white space. */
  lemma FirstElement(c: Bytes, off: nat, items: SyntaxItems)
    requires items.Element? && GoodItems(items) && At(c, off, ElementsText(items))
    ensures var v := off + |items.before|;
            && SkipBlanks(c, off) == v < |c| && c[v] != RBRACKET && At(c, v, Text(items.value))
            && At(c, v + |Text(items.value)|, items.after + MoreElements(items.rest))
  {
    hide At, SkipBlanks, MoreElements;
    var v := off + |items.before|;
    AtParts(c, off, items.before, Text(items.value) + (items.after + MoreElements(items.rest)));
    AtParts(c, v, Text(items.value), items.after + MoreElements(items.rest));
    FirstByte(items.value);
    AtByte(c, v, Text(items.value), 0);
    SpacesSkipped(c, off, items.before);
  }

  /** Behind an element comes white space, and then a comma and the next, or the closing bracket. */
  lemma AfterElement(c: Bytes, p: nat, after: Bytes, rest: SyntaxItems)
    requires Spaces(after) && At(c, p, after + MoreElements(rest))
    requires ByteAt(c, p + |after + MoreElements(rest)|, RBRACKET)
    ensures var q := p + |after|;
            && p < |c| && !IsNumberByte(c[p]) && SkipBlanks(c, p) == q
            && ByteAt(c, q, if rest.NoMore? then RBRACKET else COMMA)
            && (rest.Element? ==> At(c, q + 1, ElementsText(rest)))
  {
    hide At, SkipBlanks, ElementsText;
    AtParts(c, p, after, MoreElements(rest));
    var q := p + |after|;
    if rest.Element? {
      AtParts(c, q, [COMMA], ElementsText(rest));
      AtByte(c, q, [COMMA], 0);
    }
    SpacesSkipped(c, p, after);
    NoNumberByte(c, p, after);
  }

  lemma {:induction false} ArrayAccepted(c: Bytes, off: nat, gap: Bytes, items: SyntaxItems, d: nat)
    requires Spaces(gap) && GoodItems(items) && d <= NESTING_LIMIT && At(c, off, Text(ArrayOf(gap, items)))
    ensures var v := Array(DenotedItems(items));
            ParseValue(c, off, d) == Expected(d, Nesting(v), v, off + |Text(ArrayOf(gap, items))|)
    decreases items, 1
  {
    hide At, SkipBlanks, ParseValue, ParseItems, NestingItems, ElementsText, Spaces;
    var inner := if items.NoMore? then gap else ElementsText(items);
    Enclosed(c, off, LBRACKET, inner, RBRACKET);
    if items.NoMore? {
      SpacesSkipped(c, off + 1, gap);
    } else {
      FirstElement(c, off + 1, items);
      if d < NESTING_LIMIT {
        ElementsAccepted(c, off + 1, items, d + 1);
      }
    }
    ArrayJoin(c, off, d, DenotedItems(items), off + |Text(ArrayOf(gap, items))|);
  }

  lemma {:induction false} ElementsAccepted(c: Bytes, off: nat, items: SyntaxItems, d: nat)
    requires items.Element? && GoodItems(items) && d <= NESTING_LIMIT
    requires At(c, off, ElementsText(items)) && ByteAt(c, off + |ElementsText(items)|, RBRACKET)
    ensures var vs := DenotedItems(items);
            ParseItems(c, off, d) == Expected(d, NestingItems(vs), vs, off + |ElementsText(items)| + 1)
    decreases items, 0
  {
    hide At, SkipBlanks, ParseValue, ParseItems, Nesting, Text, Spaces;
    var v := off + |items.before|;
    var p := v + |Text(items.value)|;
    FirstElement(c, off, items);
    AfterElement(c, p, items.after, items.rest);
    ValueAccepted(c, v, items.value, d);
    var q := p + |items.after|;
    if items.rest.NoMore? {
      ItemsLast(c, off, d, Denoted(items.value), p, q);
    } else {
      ElementsAccepted(c, q + 1, items.rest, d);
      ItemsMore(c, off, d, Denoted(items.value), p, q, DenotedItems(items.rest),
                q + 1 + |ElementsText(items.rest)| + 1);
    }
  }

  /** The texts of a pairing, one behind the other. */
  lemma PairingParts(c: Bytes, off: nat, m: SyntaxMembers)
    requires m.Pairing? && At(c, off, PairingsText(m))
    ensures var key := off + |m.before|;
            var colon := key + |Quoted(m.name)| + |m.beforeColon|;
            var v := colon + 1 + |m.afterColon|;
            && At(c, off, m.before) && At(c, key, Quoted(m.name)) && At(c, key + |Quoted(m.name)|, m.beforeColon)
            && At(c, colon, [COLON]) && At(c, colon + 1, m.afterColon) && At(c, v, Text(m.value))
            && At(c, v + |Text(m.value)|, m.after + MorePairings(m.more))
            && |PairingsText(m)| == v + |Text(m.value)| + |m.after + MorePairings(m.more)| - off
  {
    hide At, Text, Quoted, MorePairings;
    var g := m.after + MorePairings(m.more);
    var f := Text(m.value) + g;
    var e := m.afterColon + f;
    var d := [COLON] + e;
    var b := m.beforeColon + d;
    var key := off + |m.before|;
    var k := key + |Quoted(m.name)|;
    var colon := k + |m.beforeColon|;
    AtParts(c, off, m.before, Quoted(m.name) + b);
    AtParts(c, key, Quoted(m.name), b);
    AtParts(c, k, m.beforeColon, d);
    AtParts(c, colon, [COLON], e);
    AtParts(c, colon + 1, m.afterColon, f);
    AtParts(c, colon + 1 + |m.afterColon|, Text(m.value), g);
  }

  /** The name and the colon of a pairing. */
  lemma NameAccepted(c: Bytes, off: nat, m: SyntaxMembers)
    requires m.Pairing? && GoodMembers(m) && At(c, off, PairingsText(m))
    ensures var key := off + |m.before|;
            var colon := key + |Quoted(m.name)| + |m.beforeColon|;
            var v := colon + 1 + |m.afterColon|;
            && SkipBlanks(c, off) == key < |c| && c[key] == QUOTE
            && ParseString(c, key) == Ok(UpToNul(Denotations(m.name.pieces)), key + |Quoted(m.name)|)
            && SkipBlanks(c, key + |Quoted(m.name)|) == colon && ByteAt(c, colon, COLON)
            && SkipBlanks(c, colon + 1) == v && At(c, v, Text(m.value))
            && At(c, v + |Text(m.value)|, m.after + MorePairings(m.more))
            && |PairingsText(m)| == v + |Text(m.value)| + |m.after + MorePairings(m.more)| - off
  {
    hide At, SkipBlanks, MorePairings, PairingsText, ParseString, Denotations, UpToNul, Spellings, Text, Spaces, Quoted;
    PairingParts(c, off, m);
    var key := off + |m.before|;
    var colon := key + |Quoted(m.name)| + |m.beforeColon|;
    NameByte(c, key, m.name);
    QuotationMeaning(c, key, m.name);
    AtByte(c, colon, [COLON], 0);
    FirstByte(m.value);
    AtByte(c, colon + 1 + |m.afterColon|, Text(m.value), 0);
    SpacesSkipped(c, off, m.before);
    SpacesSkipped(c, key + |Quoted(m.name)|, m.beforeColon);
    SpacesSkipped(c, colon + 1, m.afterColon);
  }

  lemma NameByte(c: Bytes, key: nat, name: Quotation)
    requires At(c, key, Quoted(name))
    ensures key < |c| && c[key] == QUOTE
  {
    AtByte(c, key, Quoted(name), 0);
  }

  lemma FirstName(c: Bytes, off: nat, m: SyntaxMembers)
    requires m.Pairing? && GoodMembers(m) && At(c, off, PairingsText(m))
    ensures SkipBlanks(c, off) < |c| && c[SkipBlanks(c, off)] == QUOTE
  {
    hide At, SkipBlanks, PairingsText, ParseString, Denotations, UpToNul, Text, Spaces, Quoted, MorePairings;
    NameAccepted(c, off, m);
  }

  /** Behind a pairing comes white space, and then a comma and the next, or the closing brace. */
  lemma AfterPairing(c: Bytes, p: nat, after: Bytes, more: SyntaxMembers)
    requires Spaces(after) && At(c, p, after + MorePairings(more))
    requires ByteAt(c, p + |after + MorePairings(more)|, RBRACE)
    ensures var q := p + |after|;
            && p < |c| && !IsNumberByte(c[p]) && SkipBlanks(c, p) == q
            && ByteAt(c, q, if more.NoneLeft? then RBRACE else COMMA)
            && (more.Pairing? ==> At(c, q + 1, PairingsText(more)))
  {
    hide At, SkipBlanks, PairingsText;
    AtParts(c, p, after, MorePairings(more));
    var q := p + |after|;
    if more.Pairing? {
      AtParts(c, q, [COMMA], PairingsText(more));
      AtByte(c, q, [COMMA], 0);
    }
    SpacesSkipped(c, p, after);
    NoNumberByte(c, p, after);
  }

  lemma {:induction false} ObjectAccepted(c: Bytes, off: nat, gap: Bytes, members: SyntaxMembers, d: nat)
    requires Spaces(gap) && GoodMembers(members) && d <= NESTING_LIMIT && At(c, off, Text(ObjectOf(gap, members)))
    ensures var v := Object(DenotedMembers(members));
            ParseValue(c, off, d) == Expected(d, Nesting(v), v, off + |Text(ObjectOf(gap, members))|)
    decreases members, 1
  {
    hide At, SkipBlanks, ParseValue, ParseMembers, NestingMembers, PairingsText, Spaces, ParseString, Acceptable;
    var inner := if members.NoneLeft? then gap else PairingsText(members);
    Enclosed(c, off, LBRACE, inner, RBRACE);
    if members.NoneLeft? {
      SpacesSkipped(c, off + 1, gap);
    } else {
      FirstName(c, off + 1, members);
      if d < NESTING_LIMIT {
        PairingsAccepted(c, off + 1, members, d + 1);
      }
    }
    ObjectJoin(c, off, d, DenotedMembers(members), off + |Text(ObjectOf(gap, members))|);
  }

  lemma {:induction false} PairingsAccepted(c: Bytes, off: nat, m: SyntaxMembers, d: nat)
    requires m.Pairing? && GoodMembers(m) && d <= NESTING_LIMIT
    requires At(c, off, PairingsText(m)) && ByteAt(c, off + |PairingsText(m)|, RBRACE)
    ensures var vs := DenotedMembers(m);
            ParseMembers(c, off, d) == Expected(d, NestingMembers(vs), vs, off + |PairingsText(m)| + 1)
    decreases m, 0
  {
    hide At, SkipBlanks, ParseValue, ParseMembers, ParseString, Nesting, Text, Spaces, PairingsText, Quoted,
         Denotations, UpToNul, AllTolerated, Sized, Body, EndsInQuote;
    var v := off + |m.before| + |Quoted(m.name)| + |m.beforeColon| + 1 + |m.afterColon|;
    var p := v + |Text(m.value)|;
    NameAccepted(c, off, m);
    AfterPairing(c, p, m.after, m.more);
    ValueAccepted(c, v, m.value, d);
    var key, q := UpToNul(Denotations(m.name.pieces)), p + |m.after|;
    assert MemberRead(c, off, d, key, Denoted(m.value), p);
    hide MemberRead;
    if m.more.NoneLeft? {
      MembersLast(c, off, d, key, Denoted(m.value), p, q);
    } else {
      PairingsAccepted(c, q + 1, m.more, d);
      MembersMore(c, off, d, key, Denoted(m.value), p, q, DenotedMembers(m.more), q + 1 + |PairingsText(m.more)| + 1);
    }
  }

  // ----- documents

  /** A value with white space around it. */
  function Document(before: Bytes, s: Syntax, after: Bytes): Bytes {
    before + (Text(s) + after)
  }

  /** Every such text, with blanks around it, is accepted as the value it denotes if that nests at most 1000
      deep, and refused otherwise; so it is when the text has to be followed by nothing. */
  lemma EveryTextAccepted(before: Bytes, s: Syntax, after: Bytes)
    requires Spaces(before) && GoodSyntax(s) && Spaces(after) && 0 !in Document(before, s, after)
    ensures var t, v := Document(before, s, after), Denoted(s);
            && ParseDocument(t) == Expected(0, Nesting(v), v, |before| + |Text(s)|)
            && ParseWholeDocument(t) == Expected(0, Nesting(v), v, |before| + |Text(s)|)
  {
    hide ParseValue, Nesting, Denoted, SkipBlanks, At, Text;
    var t := Document(before, s, after);
    var c, at, end := t + [0], |before|, |before| + |Text(s)|;
    DocumentParts(before, s, after, c);
    FirstByte(s);
    AtByte(c, at, Text(s), 0);
    SpacesSkipped(c, 0, before);
    NoMark(c, before);
    AfterDocument(c, end, after);
    ValueAccepted(c, at, s, 0);
  }

  lemma DocumentParts(before: Bytes, s: Syntax, after: Bytes, c: Bytes)
    requires c == Document(before, s, after) + [0]
    ensures At(c, 0, before) && At(c, |before|, Text(s)) && At(c, |before| + |Text(s)|, after + [0])
    ensures |c| == |before| + |Text(s)| + |after| + 1
  {
    hide Text;
    var rest := after + [0];
    assert c == before + (Text(s) + rest);
    assert c[0..|c|] == c;
    assert At(c, 0, before + (Text(s) + rest));
    hide At;
    AtParts(c, 0, before, Text(s) + rest);
    AtParts(c, |before|, Text(s), rest);
  }

  lemma NoMark(c: Bytes, before: Bytes)
    requires Spaces(before) && At(c, 0, before) && |before| < |c| && c[|before|] < 128
    ensures AfterBom(c) == 0
  {
    if before != [] {
      AtByte(c, 0, before, 0);
    }
    assert |c| > 4 ==> c[..3][0] == c[0];
  }

  /** Behind the document there are blanks up to the terminator. */
  lemma AfterDocument(c: Bytes, end: nat, after: Bytes)
    requires Spaces(after) && At(c, end, after + [0]) && |c| == end + |after| + 1
    ensures end < |c| && !IsNumberByte(c[end]) && ByteAt(c, SkipBlanks(c, end), 0)
  {
    forall k | end <= k < |c|
      ensures c[k] <= 32 && !IsNumberByte(c[k])
    {
      AtByte(c, end, after + [0], k - end);
    }
    AtByte(c, end, after + [0], |after|);
    AllBlank(c, end);
  }

  lemma {:induction false} AllBlank(c: Bytes, i: nat)
    requires i <= |c| && forall k :: i <= k < |c| ==> c[k] <= 32
    ensures BlankEnd(c, i) == |c|
    decreases |c| - i
  {
    if i < |c| {
      AllBlank(c, i + 1);
    }
  }

  /** A numeral is read to its end, as the number it denotes, if and only if it has at most 63 bytes. */
  lemma NumeralReadIff(c: Bytes, off: nat, n: Numeral)
    requires GoodNumeral(n) && At(c, off, NumeralText(n)) && off + |NumeralText(n)| < |c|
    requires !IsNumberByte(c[off + |NumeralText(n)|])
    ensures ParseNumber(c, off) == Ok(Number(NumeralValue(n)), off + |NumeralText(n)|) <==> |NumeralText(n)| <= 63
  {
    hide NumeralText, NumeralValue, Strtod, At;
    if |NumeralText(n)| <= 63 {
      NumberAccepted(c, off, n);
    }
  }

  /** A longer numeral is cut: strtod sees its first 63 bytes, and the rest of its digits are left over. */
  lemma LongNumeralCut(c: Bytes, off: nat, n: Numeral)
    requires GoodNumeral(n) && !n.minus && !n.point && n.exponent == NoExponent && |n.whole| > 63
    requires At(c, off, n.whole)
    ensures ParseNumber(c, off) == Ok(Number(DigitsValue(n.whole[..63]) as real), off + 63)
  {
    var short := Numeral(false, n.whole[..63], false, [], NoExponent);
    forall k | off <= k < off + 63
      ensures IsNumberByte(c[k])
    {
      AtByte(c, off, n.whole, k - off);
    }
    NumberEndFull(c, off, 63);
    assert At(c, off, n.whole[..63]) by {
      assert c[off..off + |n.whole|][..63] == c[off..off + 63];
    }
    assert NumeralText(short) == n.whole[..63];
    StrtodNumeral(short);
    hide Strtod;
  }

  lemma {:induction false} NumberEndFull(c: Bytes, i: nat, room: nat)
    requires i + room <= |c| && forall k :: i <= k < i + room ==> IsNumberByte(c[k])
    ensures NumberEnd(c, i, room) == i + room
    decreases room
  {
    if room > 0 {
      NumberEndFull(c, i + 1, room - 1);
    }
  }
}
