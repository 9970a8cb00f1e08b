/** What a string literal denotes: an account of JSON strings (section 7 of RFC 8259) that
    does not mention the parser, and the proof that parse_string computes it. */
module JsonMeaning {
  import opened JsonValue
  import opened JsonText
  import opened JsonUnicode
  import opened JsonLiteral

  /** One character of a literal.  Hex digits may be in either case. */
  datatype Piece =
    | Plain(b: Byte)
    | Short(letter: Byte)
    | Basic(digits: Bytes)
    | Pair(high: Bytes, low: Bytes)

  predicate FourHex(h: Bytes) {
    |h| == 4 && IsHex(h[0]) && IsHex(h[1]) && IsHex(h[2]) && IsHex(h[3])
  }

  predicate WellFormed(p: Piece) {
    match p
    case Plain(b) => b != QUOTE && b != BACKSLASH
    case Short(letter) => letter in SHORT_ESCAPES
    case Basic(h) => FourHex(h) && !IsHigh(Hex4(h, 0)) && !IsLow(Hex4(h, 0))
    case Pair(high, low) => FourHex(high) && FourHex(low) && IsHigh(Hex4(high, 0)) && IsLow(Hex4(low, 0))
  }

  /** What the parser takes for a character: a quote where the sizing pass does not end at it, and any four
      bytes for the digits of a code, which is 0 unless all of them are hex digits. */
  predicate Tolerated(p: Piece) {
    match p
    case Plain(b) => b != BACKSLASH
    case Basic(h) => |h| == 4 && !IsHigh(Hex4(h, 0)) && !IsLow(Hex4(h, 0))
    case _ => WellFormed(p)
  }

  function Spelling(p: Piece): Bytes {
    match p
    case Plain(b) => [b]
    case Short(letter) => [BACKSLASH, letter]
    case Basic(h) => [BACKSLASH, 117] + h
    case Pair(high, low) => [BACKSLASH, 117] + high + [BACKSLASH, 117] + low
  }

  /** What the short escapes stand for. */
  const SHORT_ESCAPES: map<Byte, Byte> :=
    map[QUOTE := QUOTE, BACKSLASH := BACKSLASH, 47 := 47, 98 := 8, 102 := 12, 110 := 10, 114 := 13, 116 := 9]

  function Denotation(p: Piece): Bytes
    requires Tolerated(p)
  {
    match p
    case Plain(b) => [b]
    case Short(letter) => [SHORT_ESCAPES[letter]]
    case Basic(h) => Utf8(Hex4(h, 0))
    case Pair(high, low) => Utf8(Joined(Hex4(high, 0), Hex4(low, 0)))
  }

  predicate AllWellFormed(ps: seq<Piece>) {
    forall k :: 0 <= k < |ps| ==> WellFormed(ps[k])
  }

  predicate AllTolerated(ps: seq<Piece>) {
    forall k :: 0 <= k < |ps| ==> Tolerated(ps[k])
  }

  function Spellings(ps: seq<Piece>): Bytes {
    if ps == [] then [] else Spelling(ps[0]) + Spellings(ps[1..])
  }

  function Denotations(ps: seq<Piece>): Bytes
    requires AllTolerated(ps)
  {
    if ps == [] then [] else Denotation(ps[0]) + Denotations(ps[1..])
  }

  // ----- one piece

  lemma PieceBytes(c: Bytes, i: nat, p: Piece)
    requires At(c, i, Spelling(p))
    ensures i + |Spelling(p)| <= |c|
    ensures forall k :: 0 <= k < |Spelling(p)| ==> c[i + k] == Spelling(p)[k]
  {
    forall k | 0 <= k < |Spelling(p)|
      ensures c[i + k] == Spelling(p)[k]
    {
      AtByte(c, i, Spelling(p), k);
    }
  }

  /** The sizing pass crosses a piece without stopping. */
  lemma PieceScanned(c: Bytes, i: nat, p: Piece)
    requires WellFormed(p) && At(c, i, Spelling(p))
    ensures LiteralEnd(c, i) == LiteralEnd(c, i + |Spelling(p)|)
  {
    hide At;
    match p
    case Basic(h) => CodeScanned(c, i, h);
    case Pair(high, low) =>
      var second := [BACKSLASH, 117] + low;
      assert Spelling(p) == [BACKSLASH, 117] + high + second;
      AtParts(c, i, [BACKSLASH, 117] + high, second);
      CodeScanned(c, i, high);
      CodeScanned(c, i + 6, low);
    case _ => AtByte(c, i, Spelling(p), 0);
  }

  lemma CodeScanned(c: Bytes, i: nat, h: Bytes)
    requires FourHex(h) && At(c, i, [BACKSLASH, 117] + h)
    ensures LiteralEnd(c, i) == LiteralEnd(c, i + 6)
  {
    PieceBytes(c, i, Basic(h));
    HexScanned(c, i + 2);
  }

  lemma HexScanned(c: Bytes, i: nat)
    requires i + 4 <= |c| && IsHex(c[i]) && IsHex(c[i + 1]) && IsHex(c[i + 2]) && IsHex(c[i + 3])
    ensures LiteralEnd(c, i) == LiteralEnd(c, i + 4)
  {
    assert LiteralEnd(c, i) == LiteralEnd(c, i + 1);
    assert LiteralEnd(c, i + 1) == LiteralEnd(c, i + 2);
    assert LiteralEnd(c, i + 2) == LiteralEnd(c, i + 3);
  }

  lemma SameHex(c: Bytes, i: nat, h: Bytes)
    requires |h| == 4 && At(c, i, h)
    ensures Hex4(c, i) == Hex4(h, 0)
  {
    AtByte(c, i, h, 0);
    AtByte(c, i, h, 1);
    AtByte(c, i, h, 2);
    AtByte(c, i, h, 3);
  }

  lemma BasicLiteral(c: Bytes, i: nat, h: Bytes, end: nat)
    requires Tolerated(Basic(h)) && At(c, i, Spelling(Basic(h))) && i + 6 <= end < |c|
    ensures c[i] == BACKSLASH && c[i + 1] == 117
    ensures Utf16Literal(c, i, end) == Literal(6, Denotation(Basic(h)))
  {
    hide At, Utf8;
    AtParts(c, i, [BACKSLASH, 117], h);
    AtByte(c, i, [BACKSLASH, 117], 0);
    AtByte(c, i, [BACKSLASH, 117], 1);
    SameHex(c, i + 2, h);
  }

  lemma PairLiteral(c: Bytes, i: nat, high: Bytes, low: Bytes, end: nat)
    requires WellFormed(Pair(high, low)) && At(c, i, Spelling(Pair(high, low))) && i + 12 <= end < |c|
    ensures c[i] == BACKSLASH && c[i + 1] == 117
    ensures Utf16Literal(c, i, end) == Literal(12, Denotation(Pair(high, low)))
  {
    hide At, Utf8;
    AtParts(c, i, [BACKSLASH, 117] + high + [BACKSLASH, 117], low);
    AtParts(c, i, [BACKSLASH, 117] + high, [BACKSLASH, 117]);
    AtParts(c, i, [BACKSLASH, 117], high);
    AtByte(c, i, [BACKSLASH, 117], 0);
    AtByte(c, i, [BACKSLASH, 117], 1);
    AtByte(c, i + 6, [BACKSLASH, 117], 0);
    AtByte(c, i + 6, [BACKSLASH, 117], 1);
    SameHex(c, i + 2, high);
    SameHex(c, i + 8, low);
  }

  /** The unescaping pass turns a piece into its denotation. */
  lemma PieceUnescaped(c: Bytes, i: nat, p: Piece, end: nat)
    requires Tolerated(p) && At(c, i, Spelling(p)) && i + |Spelling(p)| <= end < |c|
    ensures Unescape(c, i, end) == Prefixed(Denotation(p), Unescape(c, i + |Spelling(p)|, end))
  {
    match p
    case Basic(h) => BasicLiteral(c, i, h, end);
    case Pair(high, low) => PairLiteral(c, i, high, low, end);
    case _ => PieceBytes(c, i, p);
  }

  // ----- whole literals

  lemma {:induction false} PiecesScanned(c: Bytes, i: nat, ps: seq<Piece>)
    requires AllWellFormed(ps) && At(c, i, Spellings(ps))
    ensures LiteralEnd(c, i) == LiteralEnd(c, i + |Spellings(ps)|)
    decreases |ps|
  {
    hide At, LiteralEnd, Spelling;
    if ps != [] {
      AtParts(c, i, Spelling(ps[0]), Spellings(ps[1..]));
      PieceScanned(c, i, ps[0]);
      PiecesScanned(c, i + |Spelling(ps[0])|, ps[1..]);
    }
  }

  lemma PrefixedChain(whole: Unescaped, a: Bytes, part: Unescaped, b: Bytes, rest: Unescaped)
    requires whole == Prefixed(a, part) && part == Prefixed(b, rest)
    ensures whole == Prefixed(a + b, rest)
  {
    if rest.Good? {
      assert a + (b + rest.bytes) == a + b + rest.bytes;
    }
  }

  lemma {:induction false} PiecesUnescaped(c: Bytes, i: nat, ps: seq<Piece>, next: nat, end: nat)
    requires AllTolerated(ps) && At(c, i, Spellings(ps)) && i + |Spellings(ps)| == next <= end < |c|
    ensures Unescape(c, i, end) == Prefixed(Denotations(ps), Unescape(c, next, end))
    decreases |ps|
  {
    hide At, Unescape, Spelling, Denotation;
    if ps == [] {
      assert Unescape(c, i, end).Good? ==> [] + Unescape(c, i, end).bytes == Unescape(c, i, end).bytes;
    } else {
      var mid := i + |Spelling(ps[0])|;
      AtParts(c, i, Spelling(ps[0]), Spellings(ps[1..]));
      PieceUnescaped(c, i, ps[0], end);
      PiecesUnescaped(c, mid, ps[1..], next, end);
      PrefixedChain(Unescape(c, i, end), Denotation(ps[0]), Unescape(c, mid, end), Denotations(ps[1..]),
                    Unescape(c, next, end));
    }
  }

  /** A literal of well-formed characters is accepted and means exactly what it denotes. */
  lemma LiteralMeaning(c: Bytes, off: nat, ps: seq<Piece>)
    requires AllWellFormed(ps) && At(c, off, [QUOTE] + Spellings(ps) + [QUOTE])
    ensures Unescape(c, off + 1, off + 1 + |Spellings(ps)|) == Good(Denotations(ps))
    ensures ParseString(c, off) == Ok(UpToNul(Denotations(ps)), off + |Spellings(ps)| + 2)
  {
    hide At, Spellings, Denotations, UpToNul;
    var sp := Spellings(ps);
    AtParts(c, off, [QUOTE] + sp, [QUOTE]);
    AtParts(c, off, [QUOTE], sp);
    AtByte(c, off, [QUOTE], 0);
    AtByte(c, off + 1 + |sp|, [QUOTE], 0);
    PiecesScanned(c, off + 1, ps);
    PiecesUnescaped(c, off + 1, ps, off + 1 + |sp|, off + 1 + |sp|);
    assert Denotations(ps) + [] == Denotations(ps);
  }

  /** A \u escape at `i` that is half of a surrogate pair whose other half is not there. */
  predicate LoneSurrogate(c: Bytes, i: nat)
    requires i + 6 <= |c|
  {
    && c[i] == BACKSLASH && c[i + 1] == 117
    && (IsLow(Hex4(c, i + 2)) ||
        (IsHigh(Hex4(c, i + 2)) &&
         !(i + 12 <= |c| && c[i + 6] == BACKSLASH && c[i + 7] == 117 && IsLow(Hex4(c, i + 8)))))
  }

  lemma LoneSurrogateBad(c: Bytes, i: nat, end: nat)
    requires i < end < |c| && i + 6 <= |c| && LoneSurrogate(c, i)
    ensures Unescape(c, i, end) == Bad
  {
    assert Utf16Literal(c, i, end).length == 0;
  }

  /** A lone surrogate after any well-formed beginning makes the whole literal fail. */
  lemma LoneSurrogateRejected(c: Bytes, off: nat, ps: seq<Piece>)
    requires AllWellFormed(ps) && At(c, off, [QUOTE] + Spellings(ps))
    requires var i := off + 1 + |Spellings(ps)|; i + 6 <= |c| && LoneSurrogate(c, i)
    ensures ParseString(c, off) == Fail
  {
    hide At, Spellings, Denotations, Unescape;
    var sp := Spellings(ps);
    var i := off + 1 + |sp|;
    AtParts(c, off, [QUOTE], sp);
    AtByte(c, off, [QUOTE], 0);
    PiecesScanned(c, off + 1, ps);
    assert LiteralEnd(c, off + 1) == LiteralEnd(c, i) == LiteralEnd(c, i + 2);
    var end := LiteralEnd(c, i);
    if end != -1 {
      PiecesUnescaped(c, off + 1, ps, i, end);
      LoneSurrogateBad(c, i, end);
    }
  }

  // ----- every character can be written, and what the printer writes is well formed

  function HexSpelling(code: nat): Bytes
    requires code < 0x10000
  {
    [HexDigit(code / 4096), HexDigit(code / 256 % 16), HexDigit(code / 16 % 16), HexDigit(code % 16)]
  }

  lemma HexSpelled(code: nat)
    requires code < 0x10000
    ensures FourHex(HexSpelling(code)) && Hex4(HexSpelling(code), 0) == code
  {
    assert code / 256 == code / 16 / 16;
    assert code / 4096 == code / 256 / 16;
  }

  /** A hex digit in lower or upper case. */
  predicate SameDigit(b: Byte, digit: Byte) {
    b == digit || (97 <= digit <= 102 && b == digit - 32)
  }

  /** Digits, each in either case, of a code. */
  predicate Spells(h: Bytes, code: nat)
    requires code < 0x10000
  {
    |h| == 4 && forall k :: 0 <= k < 4 ==> SameDigit(h[k], HexSpelling(code)[k])
  }

  lemma EitherCase(h: Bytes, code: nat)
    requires code < 0x10000 && Spells(h, code)
    ensures FourHex(h) && Hex4(h, 0) == code
  {
    HexSpelled(code);
    var low := HexSpelling(code);
    hide HexSpelling;
    assert SameDigit(h[0], low[0]) && SameDigit(h[1], low[1]) && SameDigit(h[2], low[2]) && SameDigit(h[3], low[3]);
  }

  /** Only such digits are read, and as the code they spell. */
  lemma HexRead(h: Bytes)
    requires FourHex(h)
    ensures Spells(h, Hex4(h, 0))
  {
    var a, b, c, d := HexValue(h[0]), HexValue(h[1]), HexValue(h[2]), HexValue(h[3]);
    Nibbles(a, b, c, d);
    ReadDigit(h[0]);
    ReadDigit(h[1]);
    ReadDigit(h[2]);
    ReadDigit(h[3]);
    assert Hex4(h, 0) == a * 4096 + b * 256 + c * 16 + d;
    hide Hex4, HexValue, HexDigit, SameDigit;
    assert HexSpelling(Hex4(h, 0)) == [HexDigit(a), HexDigit(b), HexDigit(c), HexDigit(d)];
  }

  lemma ReadDigit(b: Byte)
    requires IsHex(b)
    ensures SameDigit(b, HexDigit(HexValue(b)))
  {
  }

  lemma Nibbles(a: nat, b: nat, c: nat, d: nat)
    requires a < 16 && b < 16 && c < 16 && d < 16
    ensures var code := a * 4096 + b * 256 + c * 16 + d;
            code / 4096 == a && code / 256 % 16 == b && code / 16 % 16 == c && code % 16 == d
  {
    var code := a * 4096 + b * 256 + c * 16 + d;
    assert code / 16 == a * 256 + b * 16 + c && code / 256 == a * 16 + b;
  }

  /** An escape of a code point: one \u code, or a surrogate pair above the basic plane. */
  predicate IsEscape(p: Piece, cp: nat)
    requires IsScalar(cp)
  {
    if cp < 0x10000 then p.Basic? && Spells(p.digits, cp)
    else
      && p.Pair? && Spells(p.high, 0xD800 + (cp - 0x10000) / 1024)
      && Spells(p.low, 0xDC00 + (cp - 0x10000) % 1024)
  }

  /** Every Unicode scalar value, escaped the UTF-16 way with digits in either case, is read back as its UTF-8
      encoding. */
  lemma EveryScalarReadsBack(c: Bytes, off: nat, cp: nat, p: Piece)
    requires IsScalar(cp) && IsEscape(p, cp) && At(c, off, [QUOTE] + Spelling(p) + [QUOTE])
    ensures cp != 0 ==> ParseString(c, off) == Ok(Utf8(cp), off + |Spelling(p)| + 2)
    ensures Utf8Decode(Utf8(cp)) == cp
  {
    hide At, Utf8, Hex4, HexSpelling, ParseString, UpToNul, Spells;
    Utf8RoundTrip(cp);
    Utf8Shape(cp);
    if cp < 0x10000 {
      EitherCase(p.digits, cp);
    } else {
      SurrogatesJoin(cp);
      EitherCase(p.high, 0xD800 + (cp - 0x10000) / 1024);
      EitherCase(p.low, 0xDC00 + (cp - 0x10000) % 1024);
    }
    var ps := [p];
    assert ps[1..] == [];
    assert Spellings(ps) == Spelling(p);
    assert Denotations(ps) == Utf8(cp);
    LiteralMeaning(c, off, ps);
  }

  /** The piece the printer writes for one string byte. */
  function Printed(b: Byte): (p: Piece)
    ensures Spelling(p) == EscapedByte(b)
  {
    if ShortEscape(b) != 0 then Short(ShortEscape(b))
    else if b < 32 then Basic([48, 48, HexDigit(b / 16), HexDigit(b % 16)])
    else Plain(b)
  }

  function AllPrinted(s: Bytes): (ps: seq<Piece>)
    ensures Spellings(ps) == EscapedText(s)
  {
    if s == [] then [] else [Printed(s[0])] + AllPrinted(s[1..])
  }

  lemma PrintedDenotes(b: Byte)
    ensures WellFormed(Printed(b)) && Denotation(Printed(b)) == [b]
  {
    if ShortEscape(b) == 0 && b < 32 {
      var h := [48, 48, HexDigit(b / 16), HexDigit(b % 16)];
      assert h == HexSpelling(b);
      HexSpelled(b);
    }
  }

  lemma {:induction false} AllPrintedDenote(s: Bytes)
    ensures AllWellFormed(AllPrinted(s)) && Denotations(AllPrinted(s)) == s
  {
    hide Printed, Denotation, WellFormed, EscapedText;
    if s != [] {
      PrintedDenotes(s[0]);
      AllPrintedDenote(s[1..]);
      assert AllPrinted(s)[1..] == AllPrinted(s[1..]);
    }
  }

  /** A printed string literal parses back to the string, wherever it stands. */
  lemma StringRoundTrip(c: Bytes, off: nat, s: CString)
    requires At(c, off, StringText(s))
    ensures ParseString(c, off) == Ok(s, off + |StringText(s)|)
  {
    AllPrintedDenote(s);
    LiteralMeaning(c, off, AllPrinted(s));
  }
}
