/** The part of SQL that discovery writes: tokens, expressions with the precedence of AND over OR,
    and three-valued truth. */
module SqlText {

  // ----- literals and numbers

  /** Text with every quote doubled. */
  function Escaped(s: string): string {
    if s == [] then "" else (if s[0] == '\'' then "''" else [s[0]]) + Escaped(s[1..])
  }

  function Quote(s: string): string {
    "'" + Escaped(s) + "'"
  }

  datatype Unquoted = Open | Unquoted(text: string, rest: string)

  /** Reads a literal from behind its opening quote. */
  function Unquote(s: string): (u: Unquoted)
    ensures u.Unquoted? ==> |u.rest| < |s|
  {
    if s == [] then Open
    else if s[0] != '\'' then Prepend(s[0], Unquote(s[1..]))
    else if |s| > 1 && s[1] == '\'' then Prepend('\'', Unquote(s[2..]))
    else Unquoted("", s[1..])
  }

  function Prepend(c: char, u: Unquoted): Unquoted {
    if u.Open? then Open else Unquoted([c] + u.text, u.rest)
  }

  /** A literal reads back as the text it was made of, whatever quotes that holds. */
  lemma {:induction false} QuoteReadsBack(s: string, r: string)
    requires r == [] || r[0] != '\''
    ensures Unquote(Escaped(s) + "'" + r) == Unquoted(s, r)
  {
    var t := Escaped(s) + "'" + r;
    if s == [] {
      assert t == "'" + r && t[1..] == r;
    } else {
      QuoteReadsBack(s[1..], r);
      var u := Escaped(s[1..]) + "'" + r;
      if s[0] == '\'' {
        assert t == "''" + u && t[2..] == u;
      } else {
        assert t == [s[0]] + u && t[1..] == u;
      }
    }
  }

  function Digit(n: nat): char
    requires n < 10
  {
    '0' + n as char
  }

  function Digits(n: nat): (t: string)
    ensures t != []
  {
    if n < 10 then [Digit(n)] else Digits(n / 10) + [Digit(n % 10)]
  }

  function Decimal(n: int): string {
    if n < 0 then "-" + Digits(-n) else Digits(n)
  }

  function DigitsValue(s: string): int {
    if s == [] then 0 else 10 * DigitsValue(s[..|s| - 1]) + (s[|s| - 1] as int - '0' as int)
  }

  function DecimalValue(s: string): int {
    if s != [] && s[0] == '-' then -DigitsValue(s[1..]) else DigitsValue(s)
  }

  lemma {:induction false} DigitsReadBack(n: nat)
    ensures DigitsValue(Digits(n)) == n && forall c :: c in Digits(n) ==> '0' <= c <= '9'
  {
    if n >= 10 {
      DigitsReadBack(n / 10);
      var t := Digits(n);
      assert t[..|t| - 1] == Digits(n / 10);
    } else {
      assert Digits(n)[..0] == "";
    }
  }

  lemma DecimalReadsBack(n: int)
    ensures DecimalValue(Decimal(n)) == n && Decimal(n) != [] && forall c :: c in Decimal(n) ==> WordChar(c)
  {
    if n < 0 {
      DigitsReadBack(-n);
      assert Decimal(n)[1..] == Digits(-n);
    } else {
      DigitsReadBack(n);
      assert Digits(n)[0] in Digits(n);
    }
  }

  // ----- tokens

  datatype Token = Word(text: string) | Lit(text: string) | Sym(text: string) | Bad

  predicate WordChar(c: char) {
    'a' <= c <= 'z' || 'A' <= c <= 'Z' || '0' <= c <= '9' || c == '_' || c == '-'
  }

  function WordLength(s: string): (k: nat)
    ensures k <= |s| && (forall i :: 0 <= i < k ==> WordChar(s[i])) && (k < |s| ==> !WordChar(s[k]))
  {
    if s == [] || !WordChar(s[0]) then 0 else 1 + WordLength(s[1..])
  }

  predicate SymChar(c: char) {
    c == '(' || c == ')' || c == '<' || c == '>' || c == '='
  }

  function SymLength(s: string): nat
    requires s != []
  {
    if (s[0] == '<' || s[0] == '>') && |s| > 1 && s[1] == '=' then 2 else 1
  }

  function Lex(s: string): seq<Token>
    decreases |s|
  {
    if s == [] then []
    else if s[0] == ' ' then Lex(s[1..])
    else if s[0] == '\'' then
      var u := Unquote(s[1..]);
      if u.Open? then [Bad] else [Lit(u.text)] + Lex(u.rest)
    else if WordChar(s[0]) then [Word(s[..WordLength(s)])] + Lex(s[WordLength(s)..])
    else if SymChar(s[0]) then [Sym(s[..SymLength(s)])] + Lex(s[SymLength(s)..])
    else [Bad]
  }

  predicate Name(w: string) {
    w != [] && forall i :: 0 <= i < |w| ==> WordChar(w[i])
  }

  lemma LexSpace(r: string)
    ensures Lex(" " + r) == Lex(r)
  {
    assert (" " + r)[1..] == r;
  }

  lemma {:induction false} WordLengthOf(w: string, r: string)
    requires (forall i :: 0 <= i < |w| ==> WordChar(w[i])) && (r == [] || !WordChar(r[0]))
    ensures WordLength(w + r) == |w|
  {
    if w == [] {
      assert w + r == r;
    } else {
      assert (w + r)[1..] == w[1..] + r;
      WordLengthOf(w[1..], r);
    }
  }

  lemma LexWord(w: string, r: string)
    requires Name(w) && (r == [] || !WordChar(r[0]))
    ensures Lex(w + r) == [Word(w)] + Lex(r)
  {
    WordLengthOf(w, r);
    assert WordChar(w[0]) && (w + r)[0] == w[0];
    assert (w + r)[..|w|] == w && (w + r)[|w|..] == r;
  }

  lemma LexLit(s: string, r: string)
    requires r == [] || r[0] != '\''
    ensures Lex(Quote(s) + r) == [Lit(s)] + Lex(r)
  {
    hide Escaped, Unquote;
    QuoteReadsBack(s, r);
    var u := Escaped(s) + "'" + r;
    assert Quote(s) + r == "'" + u;
    LexOpened(u);
  }

  lemma LexOpened(u: string)
    requires Unquote(u).Unquoted?
    ensures Lex("'" + u) == [Lit(Unquote(u).text)] + Lex(Unquote(u).rest)
  {
    hide Unquote;
    assert ("'" + u)[0] == '\'' && ("'" + u)[1..] == u;
  }

  lemma LexSym(x: string, r: string)
    requires x == "(" || x == ")" || x == "=" || x == "<=" || x == ">=" ||
             ((x == "<" || x == ">") && (r == [] || r[0] != '='))
    ensures Lex(x + r) == [Sym(x)] + Lex(r)
  {
    var t := x + r;
    assert t[0] == x[0] && SymLength(t) == |x|;
    assert t[..|x|] == x && t[|x|..] == r;
  }

  // ----- conditions, as they are written

  datatype Atom =
    | Like(col: string, pattern: string)
    | NotLike(col: string, pattern: string)
    | NotNull(col: string)
    | Compare(col: string, op: string, text: string)
    | CompareInt(col: string, op: string, n: int)
    | Always

  datatype Fo = AND | OR

  datatype Cond = Leaf(atom: Atom) | Group(fo: Fo, items: Conds)
  datatype Conds = End | Then(head: Cond, tail: Conds)

  function FoText(fo: Fo): string {
    match fo case AND => "AND" case OR => "OR"
  }

  predicate Comparison(op: string) {
    op == "<" || op == ">" || op == "<=" || op == ">=" || op == "="
  }

  /** Words and comparisons with a space behind each. */
  function Spaced(ws: seq<string>, last: string): string {
    if ws == [] then last else ws[0] + " " + Spaced(ws[1..], last)
  }

  function SpacedTokens(ws: seq<string>): seq<Token> {
    if ws == [] then [] else [SpacedToken(ws[0])] + SpacedTokens(ws[1..])
  }

  function SpacedToken(w: string): Token {
    if Comparison(w) then Sym(w) else Word(w)
  }

  lemma SpacedFew(a: string, b: string, c: string)
    ensures SpacedTokens([a, b]) == [SpacedToken(a), SpacedToken(b)]
    ensures SpacedTokens([a, b, c]) == [SpacedToken(a), SpacedToken(b), SpacedToken(c)]
  {
    hide SpacedToken;
    SpacedFirst(b, []);
    SpacedFirst(c, []);
    SpacedFirst(a, [b]);
    SpacedFirst(b, [c]);
    SpacedFirst(a, [b, c]);
    assert [a] + [b] == [a, b] && [a] + [b, c] == [a, b, c] && [b] + [c] == [b, c] && [b] + [] == [b] &&
           [c] + [] == [c];
  }

  lemma SpacedFirst(w: string, ws: seq<string>)
    ensures SpacedTokens([w] + ws) == [SpacedToken(w)] + SpacedTokens(ws)
  {
    assert ([w] + ws)[1..] == ws;
  }

  function AtomText(a: Atom): string {
    match a
    case Like(c, p) => Spaced([c, "LIKE"], Quote(p))
    case NotLike(c, p) => Spaced([c, "NOT", "LIKE"], Quote(p))
    case NotNull(c) => Spaced([c, "IS", "NOT"], "NULL")
    case Compare(c, op, t) => Spaced([c, op], Quote(t))
    case CompareInt(c, op, n) => Spaced([c, op], Decimal(n))
    case Always => "1=1"
  }

  function CondText(c: Cond): string
    decreases c, 0
  {
    match c
    case Leaf(a) => AtomText(a)
    case Group(fo, items) => "(" + ChainText(fo, items) + ")"
  }

  function ChainText(fo: Fo, items: Conds): string
    decreases items, 1
  {
    match items case End => "" case Then(h, t) => CondText(h) + RestText(fo, t)
  }

  function RestText(fo: Fo, items: Conds): string
    decreases items, 0
  {
    match items case End => "" case Then(h, t) => " " + FoText(fo) + " " + CondText(h) + RestText(fo, t)
  }

  function AtomTokens(a: Atom): seq<Token> {
    match a
    case Like(c, p) => [Word(c), Word("LIKE"), Lit(p)]
    case NotLike(c, p) => [Word(c), Word("NOT"), Word("LIKE"), Lit(p)]
    case NotNull(c) => [Word(c), Word("IS"), Word("NOT"), Word("NULL")]
    case Compare(c, op, t) => [Word(c), Sym(op), Lit(t)]
    case CompareInt(c, op, n) => [Word(c), Sym(op), Word(Decimal(n))]
    case Always => [Word("1"), Sym("="), Word("1")]
  }

  function CondTokens(c: Cond): seq<Token>
    decreases c, 0
  {
    match c
    case Leaf(a) => AtomTokens(a)
    case Group(fo, items) => [Sym("(")] + ChainTokens(fo, items) + [Sym(")")]
  }

  function ChainTokens(fo: Fo, items: Conds): seq<Token>
    decreases items, 1
  {
    match items case End => [] case Then(h, t) => CondTokens(h) + RestTokens(fo, t)
  }

  function RestTokens(fo: Fo, items: Conds): seq<Token>
    decreases items, 0
  {
    match items case End => [] case Then(h, t) => [Word(FoText(fo))] + CondTokens(h) + RestTokens(fo, t)
  }

  /** Columns are names, comparisons are comparisons, and no pair of parentheses is empty. */
  predicate GoodAtom(a: Atom) {
    match a
    case Always => true
    case Compare(c, op, _) => Name(c) && c != "1" && Comparison(op)
    case CompareInt(c, op, _) => Name(c) && c != "1" && Comparison(op)
    case _ => Name(a.col) && a.col != "1"
  }

  predicate Good(c: Cond)
    decreases c, 0
  {
    match c case Leaf(a) => GoodAtom(a) case Group(_, items) => items.Then? && AllGood(items)
  }

  predicate AllGood(items: Conds)
    decreases items, 0
  {
    match items case End => true case Then(h, t) => Good(h) && AllGood(t)
  }

  // ----- the text of a condition is its tokens

  /** Text that can stand behind a condition. */
  predicate Follows(r: string) {
    r == [] || r[0] == ' ' || r[0] == ')'
  }

  lemma KeywordsAreNames()
    ensures Name("LIKE") && Name("NOT") && Name("IS") && Name("NULL") && Name("AND") && Name("OR") && Name("WHERE")
    ensures Name("1")
  {
  }

  lemma LexWordSpace(w: string, r: string)
    requires Name(w)
    ensures Lex(w + " " + r) == [Word(w)] + Lex(r)
  {
    assert w + " " + r == w + (" " + r);
    LexWord(w, " " + r);
    LexSpace(r);
  }

  lemma LexComparison(op: string, r: string)
    requires Comparison(op)
    ensures Lex(op + " " + r) == [Sym(op)] + Lex(r)
  {
    assert op + " " + r == op + (" " + r);
    LexSym(op, " " + r);
    LexSpace(r);
  }

  predicate Spaceable(ws: seq<string>) {
    forall i :: 0 <= i < |ws| ==> Name(ws[i]) || Comparison(ws[i])
  }

  lemma {:induction false} LexSpaced(ws: seq<string>, last: string, r: string)
    requires Spaceable(ws)
    ensures Lex(Spaced(ws, last) + r) == SpacedTokens(ws) + Lex(last + r)
  {
    hide Lex, Name, Comparison;
    if ws != [] {
      LexSpaced(ws[1..], last, r);
      var rest := Spaced(ws[1..], last) + r;
      assert Spaced(ws, last) + r == ws[0] + " " + rest;
      if Comparison(ws[0]) {
        LexComparison(ws[0], rest);
      } else {
        LexWordSpace(ws[0], rest);
      }
    }
  }

  /** Spaced words, one more token, and then the rest. */
  lemma LexPhrase(ws: seq<string>, toks: seq<Token>, last: string, tok: Token, r: string)
    requires Spaceable(ws) && SpacedTokens(ws) == toks && Lex(last + r) == [tok] + Lex(r)
    ensures Lex(Spaced(ws, last) + r) == toks + [tok] + Lex(r)
  {
    hide Lex, Spaced, SpacedTokens, Spaceable;
    LexSpaced(ws, last, r);
    assert toks + ([tok] + Lex(r)) == toks + [tok] + Lex(r);
  }

  lemma LexAtom(a: Atom, r: string)
    requires GoodAtom(a) && Follows(r)
    ensures Lex(AtomText(a) + r) == AtomTokens(a) + Lex(r)
  {
    match a
    case Like(c, p) => LexLike(c, p, r);
    case NotLike(c, p) => LexNotLike(c, p, r);
    case NotNull(c) => LexNotNull(c, r);
    case Compare(c, op, t) => LexCompare(c, op, t, r);
    case CompareInt(c, op, n) => LexCompareInt(c, op, n, r);
    case Always => LexAlways(r);
  }

  lemma NamesDoNotCompare(w: string)
    requires Name(w)
    ensures !Comparison(w) && !Comparison("LIKE") && !Comparison("NOT") && !Comparison("IS")
  {
    assert WordChar(w[0]);
  }

  lemma LexLike(c: string, p: string, r: string)
    requires Name(c) && Follows(r)
    ensures Lex(AtomText(Like(c, p)) + r) == AtomTokens(Like(c, p)) + Lex(r)
  {
    KeywordsAreNames();
    NamesDoNotCompare(c);
    hide Lex, Quote, Name, Spaced, SpacedTokens, Comparison;
    var ws := [c, "LIKE"];
    SpacedFew(c, "LIKE", "");
    LexLit(p, r);
    LexPhrase(ws, [Word(c), Word("LIKE")], Quote(p), Lit(p), r);
  }

  lemma LexNotLike(c: string, p: string, r: string)
    requires Name(c) && Follows(r)
    ensures Lex(AtomText(NotLike(c, p)) + r) == AtomTokens(NotLike(c, p)) + Lex(r)
  {
    KeywordsAreNames();
    NamesDoNotCompare(c);
    hide Lex, Quote, Name, Spaced, SpacedTokens, Comparison;
    var ws := [c, "NOT", "LIKE"];
    SpacedFew(c, "NOT", "LIKE");
    LexLit(p, r);
    LexPhrase(ws, [Word(c), Word("NOT"), Word("LIKE")], Quote(p), Lit(p), r);
  }

  lemma LexNotNull(c: string, r: string)
    requires Name(c) && Follows(r)
    ensures Lex(AtomText(NotNull(c)) + r) == AtomTokens(NotNull(c)) + Lex(r)
  {
    KeywordsAreNames();
    NamesDoNotCompare(c);
    hide Lex, Quote, Name, Spaced, SpacedTokens, Comparison;
    var ws := [c, "IS", "NOT"];
    SpacedFew(c, "IS", "NOT");
    LexWord("NULL", r);
    LexPhrase(ws, [Word(c), Word("IS"), Word("NOT")], "NULL", Word("NULL"), r);
  }

  lemma LexCompare(c: string, op: string, t: string, r: string)
    requires Name(c) && Comparison(op) && Follows(r)
    ensures Lex(AtomText(Compare(c, op, t)) + r) == AtomTokens(Compare(c, op, t)) + Lex(r)
  {
    NamesDoNotCompare(c);
    hide Lex, Quote, Name, Spaced, SpacedTokens, Comparison;
    var ws := [c, op];
    SpacedFew(c, op, "");
    LexLit(t, r);
    LexPhrase(ws, [Word(c), Sym(op)], Quote(t), Lit(t), r);
  }

  lemma LexCompareInt(c: string, op: string, n: int, r: string)
    requires Name(c) && Comparison(op) && Follows(r)
    ensures Lex(AtomText(CompareInt(c, op, n)) + r) == AtomTokens(CompareInt(c, op, n)) + Lex(r)
  {
    NamesDoNotCompare(c);
    DecimalIsName(n);
    hide Lex, Decimal, Name, Spaced, SpacedTokens, Comparison;
    var ws := [c, op];
    SpacedFew(c, op, "");
    LexWord(Decimal(n), r);
    LexPhrase(ws, [Word(c), Sym(op)], Decimal(n), Word(Decimal(n)), r);
  }

  lemma LexAlways(r: string)
    requires Follows(r)
    ensures Lex(AtomText(Always) + r) == AtomTokens(Always) + Lex(r)
  {
    KeywordsAreNames();
    hide Lex, Name;
    LexWord("1", r);
    LexSym("=", "1" + r);
    LexWord("1", "=" + ("1" + r));
    assert "1=1" + r == "1" + ("=" + ("1" + r));
  }

  lemma DecimalIsName(n: int)
    ensures Name(Decimal(n))
  {
    DecimalReadsBack(n);
    assert forall i :: 0 <= i < |Decimal(n)| ==> Decimal(n)[i] in Decimal(n);
  }

  lemma {:induction false} LexCond(c: Cond, r: string)
    requires Good(c) && Follows(r)
    ensures Lex(CondText(c) + r) == CondTokens(c) + Lex(r)
    decreases c, 0
  {
    hide Lex, AtomText, GoodAtom;
    match c
    case Leaf(a) =>
      LexAtom(a, r);
    case Group(fo, items) =>
      LexSym(")", r);
      LexChain(fo, items, ")" + r);
      LexSym("(", ChainText(fo, items) + (")" + r));
      assert CondText(c) + r == "(" + (ChainText(fo, items) + (")" + r));
  }

  lemma {:induction false} LexChain(fo: Fo, items: Conds, r: string)
    requires AllGood(items) && Follows(r)
    ensures Lex(ChainText(fo, items) + r) == ChainTokens(fo, items) + Lex(r)
    decreases items, 1
  {
    hide Lex;
    match items
    case End =>
      assert "" + r == r;
    case Then(h, t) =>
      LexRest(fo, t, r);
      LexCond(h, RestText(fo, t) + r);
      assert ChainText(fo, items) + r == CondText(h) + (RestText(fo, t) + r);
  }

  lemma {:induction false} LexRest(fo: Fo, items: Conds, r: string)
    requires AllGood(items) && Follows(r)
    ensures Lex(RestText(fo, items) + r) == RestTokens(fo, items) + Lex(r) && Follows(RestText(fo, items) + r)
    decreases items, 0
  {
    hide Lex;
    match items
    case End =>
      assert "" + r == r;
    case Then(h, t) =>
      LexRest(fo, t, r);
      LexCond(h, RestText(fo, t) + r);
      LexJoined(fo, CondText(h), RestText(fo, t), r);
  }

  lemma LexJoined(fo: Fo, a: string, b: string, r: string)
    ensures Lex(" " + FoText(fo) + " " + a + b + r) == [Word(FoText(fo))] + Lex(a + (b + r))
  {
    KeywordsAreNames();
    var w, u := FoText(fo), a + (b + r);
    assert Name(w);
    hide Lex, Name, FoText;
    LexWordSpace(w, u);
    LexSpace(w + " " + u);
    JoinedText(w, a, b, r);
  }

  lemma JoinedText(w: string, a: string, b: string, r: string)
    ensures " " + w + " " + a + b + r == " " + (w + " " + (a + (b + r)))
  {
  }

  // ----- reading tokens with the precedence of SQL

  datatype Expr = Test(atom: Atom) | And(left: Expr, right: Expr) | Or(left: Expr, right: Expr)

  datatype Parsed = Fail | Parsed(expr: Expr, rest: seq<Token>)

  function ParseAtom(ts: seq<Token>): (p: Parsed)
    ensures p.Parsed? ==> |p.rest| < |ts|
  {
    if |ts| < 3 || !ts[0].Word? then Fail
    else if ts[1] == Word("LIKE") && ts[2].Lit? then Parsed(Test(Like(ts[0].text, ts[2].text)), ts[3..])
    else if |ts| > 3 && ts[1] == Word("NOT") && ts[2] == Word("LIKE") && ts[3].Lit? then
      Parsed(Test(NotLike(ts[0].text, ts[3].text)), ts[4..])
    else if |ts| > 3 && ts[1] == Word("IS") && ts[2] == Word("NOT") && ts[3] == Word("NULL") then
      Parsed(Test(NotNull(ts[0].text)), ts[4..])
    else if !ts[1].Sym? || !Comparison(ts[1].text) then Fail
    else if ts[2].Lit? then Parsed(Test(Compare(ts[0].text, ts[1].text, ts[2].text)), ts[3..])
    else if !ts[2].Word? then Fail
    else if ts[..3] == [Word("1"), Sym("="), Word("1")] then Parsed(Test(Always), ts[3..])
    else Parsed(Test(CompareInt(ts[0].text, ts[1].text, DecimalValue(ts[2].text))), ts[3..])
  }

  function ParsePrimary(ts: seq<Token>): (p: Parsed)
    ensures p.Parsed? ==> |p.rest| < |ts|
    decreases |ts|, 0
  {
    if ts == [] || ts[0] != Sym("(") then ParseAtom(ts)
    else
      var p := ParseOr(ts[1..]);
      if p.Parsed? && p.rest != [] && p.rest[0] == Sym(")") then Parsed(p.expr, p.rest[1..]) else Fail
  }

  function ParseAnd(ts: seq<Token>): (p: Parsed)
    ensures p.Parsed? ==> |p.rest| < |ts|
    decreases |ts|, 1
  {
    var p := ParsePrimary(ts);
    if p.Parsed? && p.rest != [] && p.rest[0] == Word("AND") then
      var q := ParseAnd(p.rest[1..]);
      if q.Parsed? then Parsed(And(p.expr, q.expr), q.rest) else Fail
    else p
  }

  function ParseOr(ts: seq<Token>): (p: Parsed)
    ensures p.Parsed? ==> |p.rest| < |ts|
    decreases |ts|, 2
  {
    var p := ParseAnd(ts);
    if p.Parsed? && p.rest != [] && p.rest[0] == Word("OR") then
      var q := ParseOr(p.rest[1..]);
      if q.Parsed? then Parsed(Or(p.expr, q.expr), q.rest) else Fail
    else p
  }

  datatype Where = Unreadable | Readable(expr: Expr)

  /** A WHERE clause, read to its end. */
  function ParseWhere(ts: seq<Token>): Where {
    if ts == [] || ts[0] != Word("WHERE") then Unreadable
    else
      var p := ParseOr(ts[1..]);
      if p.Parsed? && p.rest == [] then Readable(p.expr) else Unreadable
  }

  /** The expression a condition stands for. */
  function ToExpr(c: Cond): Expr
    requires Good(c)
    decreases c, 0
  {
    match c case Leaf(a) => Test(a) case Group(fo, items) => ChainExpr(fo, items)
  }

  function ChainExpr(fo: Fo, items: Conds): Expr
    requires items.Then? && AllGood(items)
    decreases items, 1
  {
    if items.tail.End? then ToExpr(items.head)
    else if fo == AND then And(ToExpr(items.head), ChainExpr(fo, items.tail))
    else Or(ToExpr(items.head), ChainExpr(fo, items.tail))
  }

  lemma AtomReadsBack(a: Atom, rest: seq<Token>)
    requires GoodAtom(a)
    ensures ParseAtom(AtomTokens(a) + rest) == Parsed(Test(a), rest)
    ensures (AtomTokens(a) + rest)[0] != Sym("(")
  {
    hide Name, Decimal, DecimalValue;
    var ts := AtomTokens(a) + rest;
    assert ts[..3] == AtomTokens(a)[..3];
    if a.CompareInt? {
      DecimalReadsBack(a.n);
    }
    if a.NotLike? || a.NotNull? {
      assert ts[4..] == rest;
    } else {
      assert ts[3..] == rest;
    }
  }

  /** A condition in front of anything is read as itself. */
  lemma {:induction false} CondReadsBack(c: Cond, rest: seq<Token>)
    requires Good(c)
    ensures ParsePrimary(CondTokens(c) + rest) == Parsed(ToExpr(c), rest)
    decreases c, 0
  {
    match c
    case Leaf(a) =>
      AtomReadsBack(a, rest);
    case Group(fo, items) =>
      var ts := CondTokens(c) + rest;
      var after := [Sym(")")] + rest;
      assert ts[0] == Sym("(") && ts[1..] == ChainTokens(fo, items) + after;
      ChainReadsBack(fo, items, after);
      assert after[1..] == rest;
  }

  lemma {:induction false} AndReadsBack(items: Conds, rest: seq<Token>)
    requires items.Then? && AllGood(items) && (rest == [] || rest[0] != Word("AND"))
    ensures ParseAnd(ChainTokens(AND, items) + rest) == Parsed(ChainExpr(AND, items), rest)
    decreases items, 1
  {
    hide Good, CondTokens, ParsePrimary, ToExpr;
    var ts, h, t := ChainTokens(AND, items) + rest, items.head, items.tail;
    var after := RestTokens(AND, t) + rest;
    assert ts == CondTokens(h) + after;
    assert Good(h);
    CondReadsBack(h, after);
    if t.End? {
      assert after == rest;
    } else {
      assert after[0] == Word("AND") && after[1..] == ChainTokens(AND, t) + rest;
      AndReadsBack(t, rest);
    }
  }

  lemma {:induction false} OrReadsBack(items: Conds, rest: seq<Token>)
    requires items.Then? && AllGood(items) && (rest == [] || rest[0] == Sym(")"))
    ensures ParseOr(ChainTokens(OR, items) + rest) == Parsed(ChainExpr(OR, items), rest)
    decreases items, 1
  {
    hide Good, CondTokens, ParsePrimary, ToExpr;
    var ts, h, t := ChainTokens(OR, items) + rest, items.head, items.tail;
    var after := RestTokens(OR, t) + rest;
    assert ts == CondTokens(h) + after;
    assert Good(h);
    CondReadsBack(h, after);
    if t.End? {
      assert after == rest;
    } else {
      assert after[0] == Word("OR") && after[1..] == ChainTokens(OR, t) + rest;
      OrReadsBack(t, rest);
    }
  }

  lemma {:induction false} ChainReadsBack(fo: Fo, items: Conds, rest: seq<Token>)
    requires items.Then? && AllGood(items) && (rest == [] || rest[0] == Sym(")"))
    ensures ParseOr(ChainTokens(fo, items) + rest) == Parsed(ChainExpr(fo, items), rest)
    decreases items, 2
  {
    if fo == AND {
      AndReadsBack(items, rest);
    } else {
      OrReadsBack(items, rest);
    }
  }

  /** A WHERE clause over a chain of conditions is read as that chain. */
  lemma WhereReadsBack(items: Conds)
    requires items.Then? && AllGood(items)
    ensures ParseWhere(Lex("WHERE " + ChainText(AND, items))) == Readable(ChainExpr(AND, items))
  {
    hide Lex, ParseOr;
    LexChain(AND, items, "");
    var t, ts := ChainText(AND, items), ChainTokens(AND, items);
    assert t + "" == t && Lex("") == [] by {
      LexNothing();
    }
    assert ts + [] == ts;
    KeywordsAreNames();
    LexWordSpace("WHERE", t);
    assert "WHERE" + " " + t == "WHERE " + t;
    ChainReadsBack(AND, items, []);
    assert ([Word("WHERE")] + ts)[1..] == ts;
  }

  lemma LexNothing()
    ensures Lex("") == []
  {
  }

  // ----- three-valued truth

  datatype Truth = True | False | Unknown

  function Eval(e: Expr, row: Atom -> Truth): Truth {
    match e
    case Test(a) => row(a)
    case And(l, r) =>
      var x, y := Eval(l, row), Eval(r, row);
      if x == False || y == False then False else if x == Unknown || y == Unknown then Unknown else True
    case Or(l, r) =>
      var x, y := Eval(l, row), Eval(r, row);
      if x == True || y == True then True else if x == Unknown || y == Unknown then Unknown else False
  }

  /** What a condition asks of a row, in two-valued logic: an unknown test counts as not met. */
  predicate Meets(c: Cond, row: Atom -> Truth)
    decreases c, 0
  {
    match c case Leaf(a) => row(a) == True case Group(fo, items) => Combined(fo, items, row)
  }

  predicate All(items: Conds, row: Atom -> Truth)
    decreases items, 0
  {
    match items case End => true case Then(h, t) => Meets(h, row) && All(t, row)
  }

  predicate Any(items: Conds, row: Atom -> Truth)
    decreases items, 0
  {
    match items case End => false case Then(h, t) => Meets(h, row) || Any(t, row)
  }

  predicate Combined(fo: Fo, items: Conds, row: Atom -> Truth)
    decreases items, 1
  {
    if fo == AND then All(items, row) else Any(items, row)
  }

  lemma {:induction false} UnknownIsNotMet(c: Cond, row: Atom -> Truth)
    requires Good(c)
    ensures Eval(ToExpr(c), row) == True <==> Meets(c, row)
    decreases c, 0
  {
    if c.Group? {
      ChainUnknown(c.fo, c.items, row);
    }
  }

  lemma {:induction false} ChainUnknown(fo: Fo, items: Conds, row: Atom -> Truth)
    requires items.Then? && AllGood(items)
    ensures Eval(ChainExpr(fo, items), row) == True <==> Combined(fo, items, row)
    decreases items, 1
  {
    UnknownIsNotMet(items.head, row);
    if items.tail == End {
      assert All(items.tail, row) && !Any(items.tail, row);
    } else {
      ChainUnknown(fo, items.tail, row);
    }
  }
}
