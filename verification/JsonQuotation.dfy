/** Exactly which byte strings parse_string accepts, and as what: an account of literals, well formed or not,
    that does not mention the parser. */
module JsonQuotation {
  import opened JsonValue
  import opened JsonUnicode
  import opened JsonLiteral
  import opened JsonMeaning

  /** The characters between the quotes.  If `shared`, the last one is an escaped quote and that quote is the
      closing one: malformed digits that end in a backslash put the two passes of the parser out of step. */
  datatype Quotation = Quotation(pieces: seq<Piece>, shared: bool)

  function Quoted(q: Quotation): Bytes {
    [QUOTE] + (Spellings(q.pieces) + if q.shared then [] else [QUOTE])
  }

  /** No quote but behind a backslash, every backslash with a byte behind it. */
  predicate Sized(body: Bytes) {
    body == [] ||
    (if body[0] == BACKSLASH then |body| > 1 && Sized(body[2..]) else body[0] != QUOTE && Sized(body[1..]))
  }

  function Body(q: Quotation): Bytes
    requires q.shared ==> Spellings(q.pieces) != []
  {
    var sp := Spellings(q.pieces);
    if q.shared then sp[..|sp| - 1] else sp
  }

  predicate EndsInQuote(ps: seq<Piece>) {
    ps != [] && ps[|ps| - 1] == Short(QUOTE)
  }

  lemma SharedEnd(ps: seq<Piece>)
    requires EndsInQuote(ps)
    ensures |Spellings(ps)| >= 2 && Spellings(ps) == Spellings(ps[..|ps| - 1]) + [BACKSLASH] + [QUOTE]
  {
    hide Spellings;
    SpellingsLast(ps[..|ps| - 1], Short(QUOTE));
    assert ps == ps[..|ps| - 1] + [Short(QUOTE)];
    var front := Spellings(ps[..|ps| - 1]);
    assert front + [BACKSLASH, QUOTE] == front + [BACKSLASH] + [QUOTE];
  }

  lemma {:induction false} SpellingsLast(ps: seq<Piece>, p: Piece)
    ensures Spellings(ps + [p]) == Spellings(ps) + Spelling(p)
  {
    if ps == [] {
      assert ps + [p] == [p] && [p][1..] == [];
    } else {
      SpellingsLast(ps[1..], p);
      assert (ps + [p])[1..] == ps[1..] + [p] && (ps + [p])[0] == ps[0];
      hide Spelling;
    }
  }

  lemma {:induction false} DenotationsLast(ps: seq<Piece>, p: Piece)
    requires AllTolerated(ps) && Tolerated(p)
    ensures AllTolerated(ps + [p]) && Denotations(ps + [p]) == Denotations(ps) + Denotation(p)
  {
    hide Denotation, Tolerated;
    if ps == [] {
      assert ps + [p] == [p] && [p][1..] == [];
    } else {
      DenotationsLast(ps[1..], p);
      assert (ps + [p])[1..] == ps[1..] + [p] && (ps + [p])[0] == ps[0];
    }
  }

  /** A literal the parser takes. */
  predicate Acceptable(q: Quotation) {
    && AllTolerated(q.pieces) && (q.shared ==> EndsInQuote(q.pieces) && Spellings(q.pieces) != [])
    && Sized(Body(q))
  }

  // ----- the sizing pass

  lemma {:induction false} SizedEnd(c: Bytes, i: nat, body: Bytes)
    requires Sized(body) && At(c, i, body) && i + |body| < |c| && c[i + |body|] == QUOTE
    ensures LiteralEnd(c, i) == i + |body|
    decreases |body|
  {
    if body != [] {
      AtByte(c, i, body, 0);
      var n := if body[0] == BACKSLASH then 2 else 1;
      assert body == body[..n] + body[n..];
      AtParts(c, i, body[..n], body[n..]);
      SizedEnd(c, i + n, body[n..]);
    }
  }

  lemma {:induction false} EndSized(c: Bytes, i: nat)
    requires i <= |c| && LiteralEnd(c, i) != -1
    ensures Sized(c[i..LiteralEnd(c, i)])
    decreases |c| - i
  {
    var end := LiteralEnd(c, i);
    if c[i] != QUOTE {
      var n := if c[i] == BACKSLASH then 2 else 1;
      EndSized(c, i + n);
      assert c[i..end][n..] == c[i + n..end];
    }
  }

  // ----- the unescaping pass

  /** An escaped quote that is the closing one. */
  lemma SharedStep(c: Bytes, end: nat)
    requires 0 < end < |c| && c[end - 1] == BACKSLASH && c[end] == QUOTE
    ensures Unescape(c, end - 1, end) == Good([QUOTE])
  {
    assert Unescape(c, end + 1, end) == Good([]);
    assert [QUOTE] + [] == [QUOTE];
  }

  /** Every such literal is accepted, to its end and as what it denotes. */
  lemma QuotationMeaning(c: Bytes, off: nat, q: Quotation)
    requires Acceptable(q) && At(c, off, Quoted(q))
    ensures ParseString(c, off) == Ok(UpToNul(Denotations(q.pieces)), off + |Quoted(q)|)
  {
    hide At, Spellings, Denotations, UpToNul, Sized, Unescape, LiteralEnd, AllTolerated;
    var sp := Spellings(q.pieces);
    var end := off + |Quoted(q)| - 1;
    AtByte(c, off, Quoted(q), 0);
    if q.shared {
      SharedEnd(q.pieces);
    }
    QuotedParts(c, off, q);
    SizedEnd(c, off + 1, Body(q));
    PiecesRead(c, off + 1, q, end);
  }

  /** Where the parts of a literal stand. */
  lemma QuotedParts(c: Bytes, off: nat, q: Quotation)
    requires At(c, off, Quoted(q)) && (q.shared ==> EndsInQuote(q.pieces) && Spellings(q.pieces) != [])
    ensures At(c, off + 1, Body(q)) && |Quoted(q)| == |Body(q)| + 2
    ensures off + 1 + |Body(q)| < |c| && c[off + 1 + |Body(q)|] == QUOTE
    ensures At(c, off + 1, Spellings(q.pieces))
  {
    hide At, Spellings;
    if q.shared {
      SharedEnd(q.pieces);
    }
    var body := Body(q);
    assert Quoted(q) == [QUOTE] + (body + [QUOTE]);
    AtParts(c, off, [QUOTE], body + [QUOTE]);
    AtParts(c, off + 1, body, [QUOTE]);
    AtByte(c, off + 1 + |body|, [QUOTE], 0);
    assert Spellings(q.pieces) == if q.shared then body + [QUOTE] else body;
  }

  lemma PiecesRead(c: Bytes, i: nat, q: Quotation, end: nat)
    requires AllTolerated(q.pieces) && (q.shared ==> EndsInQuote(q.pieces)) && At(c, i, Spellings(q.pieces))
    requires i + |Spellings(q.pieces)| == (if q.shared then end + 1 else end) && end < |c| && c[end] == QUOTE
    ensures Unescape(c, i, end) == Good(Denotations(q.pieces))
  {
    hide At, Spellings, Denotations, Unescape;
    var ps := q.pieces;
    if q.shared {
      var front, last := ps[..|ps| - 1], Short(QUOTE);
      assert ps == front + [last];
      SharedEnd(ps);
      DenotationsLast(front, last);
      AtParts(c, i, Spellings(front) + [BACKSLASH], [QUOTE]);
      AtParts(c, i, Spellings(front), [BACKSLASH]);
      AtByte(c, end - 1, [BACKSLASH], 0);
      PiecesUnescaped(c, i, front, end - 1, end);
      SharedStep(c, end);
    } else {
      PiecesUnescaped(c, i, ps, end, end);
      assert Unescape(c, end, end) == Good([]) by {
        NothingLeft(c, end);
      }
      assert Denotations(ps) + [] == Denotations(ps);
    }
  }

  lemma NothingLeft(c: Bytes, end: nat)
    requires end < |c|
    ensures Unescape(c, end, end) == Good([])
  {
  }

  // ----- and nothing else is

  /** The first character of what the unescaping pass can read. */
  function FirstPiece(c: Bytes, i: nat, end: nat): Piece
    requires i < end < |c|
  {
    if c[i] != BACKSLASH then Plain(c[i])
    else if c[i + 1] != 117 then Short(c[i + 1])
    else if end - i < 6 then Short(117)
    else if !IsHigh(Hex4(c, i + 2)) then Basic(c[i + 2..i + 6])
    else if end - i < 12 then Short(117)
    else Pair(c[i + 2..i + 6], c[i + 8..i + 12])
  }

  lemma FirstRead(c: Bytes, i: nat, end: nat)
    requires i < end < |c| && Unescape(c, i, end).Good?
    ensures var p := FirstPiece(c, i, end);
            && Tolerated(p) && At(c, i, Spelling(p))
            && (i + |Spelling(p)| <= end || (i + 1 == end && p == Short(c[end])))
  {
    if c[i] == BACKSLASH && c[i + 1] == 117 {
      var h := c[i + 2..i + 6];
      SameHex(c, i + 2, h);
      if IsHigh(Hex4(c, i + 2)) {
        SameHex(c, i + 8, c[i + 8..i + 12]);
        HighIsHex(c, i + 2);
        LowIsHex(c, i + 8);
        PairAt(c, i);
      } else {
        assert c[i..i + 6] == [BACKSLASH, 117] + h;
      }
    } else if c[i] == BACKSLASH {
      assert c[i..i + 2] == [BACKSLASH, c[i + 1]];
    } else {
      assert c[i..i + 1] == [c[i]];
    }
  }

  lemma PairAt(c: Bytes, i: nat)
    requires i + 12 <= |c| && c[i] == BACKSLASH && c[i + 1] == 117 && c[i + 6] == BACKSLASH && c[i + 7] == 117
    ensures At(c, i, Spelling(Pair(c[i + 2..i + 6], c[i + 8..i + 12])))
  {
    assert c[i..i + 12] == [BACKSLASH, 117] + c[i + 2..i + 6] + [BACKSLASH, 117] + c[i + 8..i + 12];
  }

  lemma HighIsHex(c: Bytes, i: nat)
    requires i + 4 <= |c| && IsHigh(Hex4(c, i))
    ensures FourHex(c[i..i + 4])
  {
  }

  lemma LowIsHex(c: Bytes, i: nat)
    requires i + 4 <= |c| && IsLow(Hex4(c, i))
    ensures FourHex(c[i..i + 4])
  {
  }

  /** Whatever the unescaping pass reads is made of such characters. */
  lemma {:induction false} PiecesFound(c: Bytes, i: nat, end: nat) returns (q: Quotation)
    requires i <= end < |c| && c[end] == QUOTE && Unescape(c, i, end).Good?
    ensures AllTolerated(q.pieces) && (q.shared ==> EndsInQuote(q.pieces)) && At(c, i, Spellings(q.pieces))
    ensures i + |Spellings(q.pieces)| == if q.shared then end + 1 else end
    decreases end - i
  {
    hide At, Unescape, FirstPiece, Denotation, Tolerated, Spelling;
    if i == end {
      q := Quotation([], false);
      assert At(c, i, []) by {
        EmptyAt(c, i);
      }
    } else {
      var p := FirstPiece(c, i, end);
      FirstRead(c, i, end);
      var rest;
      if i + |Spelling(p)| <= end {
        PieceUnescaped(c, i, p, end);
        SpellingSome(p);
        rest := PiecesFound(c, i + |Spelling(p)|, end);
      } else {
        rest := Quotation([], true);
        EmptyAt(c, end + 1);
        ShortSpelled(p, QUOTE);
      }
      q := Quotation([p] + rest.pieces, rest.shared);
      assert q.pieces[1..] == rest.pieces && q.pieces[0] == p;
      AtParts(c, i, Spelling(p), Spellings(rest.pieces));
    }
  }

  lemma EmptyAt(c: Bytes, i: nat)
    requires i <= |c|
    ensures At(c, i, [])
  {
  }

  lemma SpellingSome(p: Piece)
    ensures |Spelling(p)| > 0
  {
  }

  lemma ShortSpelled(p: Piece, b: Byte)
    requires p == Short(b)
    ensures |Spelling(p)| == 2
  {
  }

  /** Only such literals are accepted. */
  lemma QuotationFound(c: Bytes, off: nat) returns (q: Quotation)
    requires ParseString(c, off).Ok?
    ensures Acceptable(q) && At(c, off, Quoted(q))
    ensures ParseString(c, off) == Ok(UpToNul(Denotations(q.pieces)), off + |Quoted(q)|)
  {
    var end := LiteralEnd(c, off + 1);
    EndSized(c, off + 1);
    q := PiecesFound(c, off + 1, end);
    hide At, Spellings, Denotations, UpToNul, Sized, Unescape, LiteralEnd, AllTolerated;
    if q.shared {
      SharedEnd(q.pieces);
    }
    var body := c[off + 1..end];
    BodyFound(c, off, end, q);
    QuotationMeaning(c, off, q);
  }

  lemma BodyFound(c: Bytes, off: nat, end: nat, q: Quotation)
    requires off + 1 <= end < |c| && c[off] == QUOTE == c[end] && At(c, off + 1, Spellings(q.pieces))
    requires off + 1 + |Spellings(q.pieces)| == (if q.shared then end + 1 else end)
    requires q.shared ==> Spellings(q.pieces) != []
    ensures Body(q) == c[off + 1..end] && At(c, off, Quoted(q)) && |Quoted(q)| == end + 1 - off
  {
    hide Spellings;
    var sp := Spellings(q.pieces);
    if q.shared {
      assert c[off + 1..end + 1][..|sp| - 1] == c[off + 1..end];
      assert c[off..end + 1] == [QUOTE] + sp;
      assert Quoted(q) == [QUOTE] + sp;
    } else {
      assert c[off..end + 1] == [QUOTE] + sp + [QUOTE];
      assert Quoted(q) == [QUOTE] + sp + [QUOTE];
    }
  }

  // ----- well-formed characters

  /** Well-formed characters between quotes are such a literal. */
  lemma WellFormedAcceptable(ps: seq<Piece>)
    requires AllWellFormed(ps)
    ensures Acceptable(Quotation(ps, false))
  {
    var c := Spellings(ps) + [QUOTE];
    assert c[0..|Spellings(ps)|] == Spellings(ps);
    PiecesScanned(c, 0, ps);
    assert LiteralEnd(c, |Spellings(ps)|) == |Spellings(ps)|;
    EndSized(c, 0);
  }

  // ----- malformed digits

  lemma {:induction false} DenotationsConcat(ps: seq<Piece>, qs: seq<Piece>)
    requires AllTolerated(ps) && AllTolerated(qs)
    ensures AllTolerated(ps + qs) && Denotations(ps + qs) == Denotations(ps) + Denotations(qs)
  {
    hide Denotation, Tolerated;
    if ps == [] {
      assert ps + qs == qs;
    } else {
      DenotationsConcat(ps[1..], qs);
      assert (ps + qs)[1..] == ps[1..] + qs && (ps + qs)[0] == ps[0];
    }
  }

  lemma {:induction false} UpToNulStops(a: Bytes, b: Bytes)
    ensures UpToNul(a + [0] + b) == UpToNul(a)
  {
    var t := a + [0] + b;
    if a != [] {
      assert t[1..] == a[1..] + [0] + b && t[0] == a[0];
      UpToNulStops(a[1..], b);
    }
  }

  /** A code whose digits are not four hex digits does not make a literal fail: the string ends there. */
  lemma MalformedEndsString(ps: seq<Piece>, h: Bytes, qs: seq<Piece>)
    requires AllTolerated(ps) && |h| == 4 && !FourHex(h) && AllTolerated(qs)
    ensures AllTolerated(ps + [Basic(h)] + qs)
    ensures UpToNul(Denotations(ps + [Basic(h)] + qs)) == UpToNul(Denotations(ps))
  {
    hide UpToNul, Denotations;
    assert Tolerated(Basic(h)) && Denotation(Basic(h)) == [0];
    DenotationsLast(ps, Basic(h));
    DenotationsConcat(ps + [Basic(h)], qs);
    UpToNulStops(Denotations(ps), Denotations(qs));
  }
}
