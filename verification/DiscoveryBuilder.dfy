/** The WHERE clause of a discovery as it is built, piece by piece, in a buffer that grows. */
module DiscoveryBuilder {
  import opened SqlText
  import opened DiscoveryWhere
  import opened GeneralTable
  import LikePattern

  // ----- desc_escape

  function Quotes(s: string): nat {
    if s == [] then 0 else (if s[0] == '\'' then 1 else 0) + Quotes(s[1..])
  }

  lemma {:induction false} EscapedConcat(a: string, b: string)
    ensures Escaped(a + b) == Escaped(a) + Escaped(b)
  {
    if a == [] {
      assert a + b == b;
    } else {
      hide Escaped;
      var c, rest := a[0], a[1..];
      EscapedConcat(rest, b);
      EscapedCons(c, rest);
      EscapedCons(c, rest + b);
      assert a == [c] + rest && a + b == [c] + (rest + b);
      EscapedRegroup(c, Escaped(rest), Escaped(b));
    }
  }

  lemma EscapedRegroup(c: char, x: string, y: string)
    ensures (if c == '\'' then "''" else [c]) + (x + y) == (if c == '\'' then "''" else [c]) + x + y
  {
  }

  lemma EscapedCons(c: char, s: string)
    ensures Escaped([c] + s) == (if c == '\'' then "''" else [c]) + Escaped(s)
  {
    assert ([c] + s)[1..] == s;
  }

  lemma {:induction false} EscapedLength(s: string)
    ensures |Escaped(s)| == |s| + Quotes(s)
  {
    if s != [] {
      EscapedLength(s[1..]);
    }
  }

  lemma EscapedLast(s: string, i: nat)
    requires i < |s|
    ensures Escaped(s[..i + 1]) == Escaped(s[..i]) + if s[i] == '\'' then "''" else [s[i]]
  {
    assert s[..i + 1] == s[..i] + [s[i]];
    EscapedConcat(s[..i], [s[i]]);
    assert [s[i]][1..] == "";
  }

  lemma {:induction false} QuotesConcat(a: string, b: string)
    ensures Quotes(a + b) == Quotes(a) + Quotes(b)
  {
    if a == [] {
      assert a + b == b;
    } else {
      QuotesConcat(a[1..], b);
      assert (a + b)[0] == a[0] && (a + b)[1..] == a[1..] + b;
    }
  }

  /** What is escaped so far leaves room for the rest. */
  lemma EscapedFits(s: string, i: nat)
    requires i < |s|
    ensures |Escaped(s[..i])| + (if s[i] == '\'' then 2 else 1) <= |s| + Quotes(s)
  {
    EscapedLast(s, i);
    EscapedLength(s[..i + 1]);
    assert s == s[..i + 1] + s[i + 1..];
    QuotesConcat(s[..i + 1], s[i + 1..]);
  }

  /** desc_escape: quotes are counted, and the copy with every quote doubled just fits. */
  method Escape(s: string) returns (r: string)
    ensures r == Escaped(s)
  {
    var q, i := 0, 0;
    while i < |s|
      invariant 0 <= i <= |s| && q == Quotes(s[..i])
    {
      assert s[..i + 1] == s[..i] + [s[i]];
      QuotesConcat(s[..i], [s[i]]);
      if s[i] == '\'' {
        q := q + 1;
      }
      i := i + 1;
    }
    assert s[..i] == s;
    var out := new char[|s| + q + 1](_ => '\0');
    var p := 0;
    i := 0;
    while i < |s|
      invariant 0 <= i <= |s| && p == |Escaped(s[..i])| && p <= |s| + q && out[..p] == Escaped(s[..i])
    {
      EscapedLast(s, i);
      EscapedFits(s, i);
      out[p] := s[i];
      p := p + 1;
      if s[i] == '\'' {
        out[p] := '\'';
        p := p + 1;
      }
      i := i + 1;
    }
    assert s[..i] == s;
    out[p] := '\0';
    r := out[..p];
  }

  lemma {:induction false} StarredEscaped(s: string)
    ensures Starred(Escaped(s)) == Escaped(Starred(s))
  {
    if s != [] {
      StarredEscaped(s[1..]);
      var e := Escaped(s);
      if s[0] == '\'' {
        assert e[1..][1..] == Escaped(s[1..]);
      } else {
        assert e[1..] == Escaped(s[1..]);
      }
      assert Starred(s)[1..] == Starred(s[1..]);
    }
  }

  lemma {:induction false} StarredConcat(a: string, b: string)
    ensures Starred(a + b) == Starred(a) + Starred(b)
  {
    if a == [] {
      assert a + b == b;
    } else {
      StarredConcat(a[1..], b);
      assert (a + b)[0] == a[0] && (a + b)[1..] == a[1..] + b;
    }
  }

  /** The loop over an escaped value that makes every '*' a '%'. */
  method ReplaceStars(e: string) returns (r: string)
    ensures r == Starred(e)
  {
    r := "";
    var i := 0;
    while i < |e|
      invariant 0 <= i <= |e| && r == Starred(e[..i])
    {
      assert e[..i + 1] == e[..i] + [e[i]];
      StarredConcat(e[..i], [e[i]]);
      assert [e[i]][1..] == "";
      r := r + [if e[i] == '*' then '%' else e[i]];
      i := i + 1;
    }
    assert e[..i] == e;
  }

  // ----- what snprintf writes is the text of a condition

  predicate NoQuote(s: string) {
    '\'' !in s
  }

  lemma {:induction false} EscapedNoQuote(s: string)
    requires NoQuote(s)
    ensures Escaped(s) == s
  {
    if s != [] {
      EscapedNoQuote(s[1..]);
      assert s == [s[0]] + s[1..];
    }
  }

  lemma QuoteParts(pre: string, v: string, post: string)
    requires NoQuote(pre) && NoQuote(post)
    ensures Quote(pre + v + post) == "'" + pre + Escaped(v) + post + "'"
  {
    EscapedConcat(pre + v, post);
    EscapedConcat(pre, v);
    EscapedNoQuote(pre);
    EscapedNoQuote(post);
    hide Escaped;
  }

  lemma SpacedTwo(a: string, b: string, last: string)
    ensures Spaced([a, b], last) == a + " " + b + " " + last
  {
    var ws := [a, b];
    assert ws[1..] == [b] && [b][1..] == [];
    assert Spaced([b], last) == b + " " + last;
  }

  lemma SpacedThree(a: string, b: string, c: string, last: string)
    ensures Spaced([a, b, c], last) == a + " " + b + " " + c + " " + last
  {
    var ws := [a, b, c];
    assert ws[1..] == [b, c];
    SpacedTwo(b, c, last);
  }

  lemma Glued(a: string, w: string, pre: string, e: string, post: string)
    ensures a + " " + w + " " + ("'" + pre + e + post + "'") == a + (" " + w + " '") + pre + e + post + "'"
  {
  }

  lemma LikeText(col: string, pre: string, v: string, post: string)
    requires NoQuote(pre) && NoQuote(post)
    ensures CondText(Leaf(Like(col, pre + v + post))) == col + " LIKE '" + pre + Escaped(v) + post + "'"
  {
    hide Escaped, Quote, Spaced, NoQuote;
    QuoteParts(pre, v, post);
    SpacedTwo(col, "LIKE", Quote(pre + v + post));
    Glued(col, "LIKE", pre, Escaped(v), post);
    assert " " + "LIKE" + " '" == " LIKE '";
  }

  lemma NotLikeText(col: string, pre: string, v: string, post: string)
    requires NoQuote(pre) && NoQuote(post)
    ensures CondText(Leaf(NotLike(col, pre + v + post))) == col + " NOT LIKE '" + pre + Escaped(v) + post + "'"
  {
    hide Escaped, Quote, Spaced, NoQuote;
    QuoteParts(pre, v, post);
    SpacedThree(col, "NOT", "LIKE", Quote(pre + v + post));
    Glued(col + " " + "NOT", "LIKE", pre, Escaped(v), post);
    LiteralJoin(col, " " + "NOT", " " + "LIKE" + " '");
    assert " " + "NOT" + (" " + "LIKE" + " '") == " NOT LIKE '";
  }

  lemma LiteralJoin(a: string, b: string, c: string)
    ensures a + b + c == a + (b + c)
  {
  }

  lemma CompareText(col: string, op: string, v: string)
    ensures CondText(Leaf(Compare(col, op, v))) == col + " " + op + " '" + Escaped(v) + "'"
  {
    hide Escaped;
    SpacedTwo(col, op, Quote(v));
    assert " '" == " " + "'";
  }

  lemma CompareIntText(col: string, op: string, n: int)
    ensures CondText(Leaf(CompareInt(col, op, n))) == col + " " + op + " " + Decimal(n)
  {
    hide Decimal;
    SpacedTwo(col, op, Decimal(n));
  }

  lemma NotNullText(col: string)
    ensures CondText(Leaf(NotNull(col))) == col + " IS NOT NULL"
  {
    SpacedThree(col, "IS", "NOT", "NULL");
    assert " " + "IS" + " " + "NOT" + " " + "NULL" == " IS NOT NULL";
    assert col + " " + "IS" + " " + "NOT" + " " + "NULL" == col + (" " + "IS" + " " + "NOT" + " " + "NULL");
  }

  // ----- the buffer

  /** Criteria written so far: the first opens a parenthesis, the others are joined with fo. */
  function Opened(fo: Fo, items: Conds): string {
    match items case End => "" case Then(h, t) => " AND (" + CondText(h) + RestText(fo, t)
  }

  lemma OpenedOneMore(fo: Fo, items: Conds, c: Cond)
    ensures Opened(fo, Append(items, One(c)))
         == Opened(fo, items) + (if items == End then " AND (" else " " + FoText(fo) + " ") + CondText(c)
  {
    var joint := " " + FoText(fo) + " ";
    hide CondText, FoText;
    RestOne(fo, c);
    if items == End {
      assert Opened(fo, One(c)) == " AND (" + CondText(c) + "";
    } else {
      RestAppend(fo, items.tail, One(c));
      assert Append(items, One(c)) == Then(items.head, Append(items.tail, One(c)));
      hide RestText, Append;
      var x := " AND (" + CondText(items.head);
      assert x + (RestText(fo, items.tail) + (joint + CondText(c))) ==
             x + RestText(fo, items.tail) + joint + CondText(c);
    }
  }

  lemma RestOne(fo: Fo, c: Cond)
    ensures RestText(fo, One(c)) == " " + FoText(fo) + " " + CondText(c)
  {
    hide CondText, FoText;
    var x := " " + FoText(fo) + " " + CondText(c);
    assert RestText(fo, End) == "" && x + "" == x;
  }

  /** Closing the parenthesis, if it was opened, makes it one condition of the clause. */
  lemma OpenedClosed(fo: Fo, items: Conds)
    ensures Opened(fo, items) + (if items == End then "" else ")") == RestText(AND, Grouped(fo, items))
  {
    if items != End {
      RestOne(AND, Group(fo, items));
      var body := ChainText(fo, items);
      assert CondText(Group(fo, items)) == "(" + body + ")";
      assert body == CondText(items.head) + RestText(fo, items.tail);
      var x, y := CondText(items.head), RestText(fo, items.tail);
      hide CondText, RestText, ChainText;
      assert " " + "AND" + " " == " AND ";
      ParenJoin(x, y);
    }
  }

  lemma ParenJoin(x: string, y: string)
    ensures " AND (" + x + y + ")" == " AND " + ("(" + (x + y) + ")")
  {
    assert " AND (" == " AND " + "(";
  }

  class Sql {
    var sql: string
    var cap: nat
    var first: bool

    ghost predicate Valid()
      reads this
    {
      |sql| < cap
    }

    constructor (cap: nat)
      requires cap > 0
      ensures Valid() && sql == "" && first && this.cap == cap
    {
      this.cap := cap;
      sql := "";
      first := true;
    }

    /** desc_strcat: the buffer is doubled until text and terminator fit. */
    method Strcat(s: string)
      requires Valid()
      modifies this`sql, this`cap
      ensures Valid() && sql == old(sql) + s
      ensures cap == old(cap) || old(cap) < cap < 2 * (|sql| + 1)
    {
      var need := |sql| + |s| + 1;
      if need > cap {
        while cap < need
          invariant sql == old(sql) && cap > 0 && (cap == old(cap) || old(cap) < cap < 2 * need)
          decreases need - cap
        {
          cap := cap * 2;
        }
      }
      sql := sql + s;
    }

    /** desc_open_cond */
    method OpenCond(fo: Fo)
      requires Valid()
      modifies this
      ensures Valid() && !first
      ensures sql == old(sql) + if old(first) then " AND (" else " " + FoText(fo) + " "
    {
      if first {
        Strcat(" AND (");
        first := false;
      } else {
        Strcat(" ");
        Strcat(FoText(fo));
        Strcat(" ");
      }
    }

    /** One of the loops of desc_append_forbidden. */
    method AppendForbidden(uris: seq<string>, end: string)
      requires Valid() && NoQuote(end)
      modifies this`sql, this`cap
      ensures Valid() && sql == old(sql) + RestText(AND, Forbid(uris, end))
    {
      hide Escaped, CondText, RestText;
      var i := 0;
      assert sql == old(sql) + RestText(AND, Forbid(uris[..0], end)) by {
        NothingForbidden(end);
      }
      while i < |uris|
        invariant 0 <= i <= |uris| && Valid() && sql == old(sql) + RestText(AND, Forbid(uris[..i], end))
      {
        var e := Escape(uris[i]);
        ghost var was := sql;
        Strcat(" AND uri NOT LIKE '" + e + end + "'");
        ForbidStep(uris, i, end);
        assert sql == old(sql) + (RestText(AND, Forbid(uris[..i], end)) + (" AND uri NOT LIKE '" + e + end + "'"));
        i := i + 1;
      }
      assert uris[..i] == uris;
    }

    /** The loop of desc_build_general_where over the criteria on times. */
    method AppendTimes(fc: Criteria, fo: Fo)
      requires Valid() && first
      modifies this
      ensures Valid() && sql == old(sql) + Opened(fo, TimeConds(fc, |TIMES|)) &&
              (first <==> TimeConds(fc, |TIMES|) == End)
    {
      hide Escaped, CondText, RestText, Opened, FoText;
      var i := 0;
      assert Opened(fo, End) == "" by {
        OpenedNothing(fo);
      }
      while i < |TIMES|
        invariant 0 <= i <= |TIMES| && Valid()
        invariant sql == old(sql) + Opened(fo, TimeConds(fc, i)) && (first <==> TimeConds(fc, i) == End)
      {
        ghost var done := TimeConds(fc, i);
        AppendEnd(done);
        if TIMES[i].0 in fc && fc[TIMES[i].0].Text? {
          var e := Escape(fc[TIMES[i].0].s);
          OpenedOneMore(fo, done, Leaf(Compare(TIMES[i].1, TIMES[i].2, fc[TIMES[i].0].s)));
          CompareText(TIMES[i].1, TIMES[i].2, fc[TIMES[i].0].s);
          OpenCond(fo);
          Strcat(TIMES[i].1 + " " + TIMES[i].2 + " '" + e + "'");
        }
        i := i + 1;
      }
    }

    /** The types of the criterion ty, in parentheses. */
    method AppendType(c: Crit, fo: Fo, ghost base: string, ghost done: Conds)
      requires Valid() && sql == base + Opened(fo, done) && (first <==> done == End)
      modifies this
      ensures Valid() && !first && sql == base + Opened(fo, Append(done, One(TypeCond(c))))
    {
      hide CondText, RestText, Opened, FoText, ChainText, Decimal, TypeItems;
      OpenedOneMore(fo, done, TypeCond(c));
      GroupText(OR, OrAlways(TypeItems(Values(c))));
      OpenCond(fo);
      ghost var was := sql;
      Strcat("(");
      if c.List? {
        AppendTypes(c.items);
      } else {
        OneType(c);
        Strcat("ty = " + Decimal(NumberOf(c)));
      }
      Strcat(")");
      assert sql == was + ("(" + ChainText(OR, OrAlways(TypeItems(Values(c)))) + ")");
    }

    /** The loop over the types in a list. */
    method AppendTypes(items: seq<Crit>)
      requires Valid()
      modifies this`sql, this`cap
      ensures Valid() && sql == old(sql) + ChainText(OR, OrAlways(TypeItems(items)))
    {
      hide ChainText, Decimal, TypeItems;
      var f, i := true, 0;
      NoItems();
      while i < |items|
        invariant 0 <= i <= |items| && Valid() && (f <==> TypeItems(items[..i]) == End)
        invariant sql == old(sql) + ChainText(OR, TypeItems(items[..i]))
      {
        TypeStep(items, i);
        Strcat((if f then "" else " OR ") + "ty = " + Decimal(NumberOf(items[i])));
        f, i := false, i + 1;
      }
      assert items[..i] == items;
      if f {
        AlwaysText();
        Strcat("1=1");
      }
    }

    /** The labels of the criterion lbl, in parentheses. */
    method AppendLabels(c: Crit, fo: Fo, ghost base: string, ghost done: Conds)
      requires Valid() && sql == base + Opened(fo, done) && (first <==> done == End)
      modifies this
      ensures Valid() && !first && sql == base + Opened(fo, Append(done, One(LabelCond(c))))
    {
      hide CondText, RestText, Opened, FoText, ChainText, Escaped, LabelItems;
      OpenedOneMore(fo, done, LabelCond(c));
      GroupText(OR, OrAlways(LabelItems(Values(c))));
      OpenCond(fo);
      ghost var was := sql;
      Strcat("(");
      AppendLabelItems(Values(c));
      Strcat(")");
      assert sql == was + ("(" + ChainText(OR, OrAlways(LabelItems(Values(c)))) + ")");
    }

    /** The loop over the labels. */
    method AppendLabelItems(items: seq<Crit>)
      requires Valid()
      modifies this`sql, this`cap
      ensures Valid() && sql == old(sql) + ChainText(OR, OrAlways(LabelItems(items)))
    {
      hide ChainText, Escaped, LabelItems;
      var f, i := true, 0;
      NoItems();
      while i < |items|
        invariant 0 <= i <= |items| && Valid() && (f <==> LabelItems(items[..i]) == End)
        invariant sql == old(sql) + ChainText(OR, LabelItems(items[..i]))
      {
        LabelStep(items, i);
        if items[i].Text? {
          var e := Escape(items[i].s);
          Strcat((if f then "" else " OR ") + "lbl LIKE '%\"" + e + "\"%'");
          f := false;
        }
        i := i + 1;
      }
      assert items[..i] == items;
      if f {
        AlwaysText();
        Strcat("1=1");
      }
    }

    /** The exclusion of deeper levels. */
    method AppendLevel(target: string, esc: string, lvl: int)
      requires Valid() && esc == Escaped(target)
      modifies this`sql, this`cap
      ensures Valid()
      ensures sql == old(sql) + RestText(AND, One(Leaf(NotLike("uri", target + "/%" + LikePattern.Levels(lvl)))))
    {
      hide CondText, RestText, Escaped;
      Strcat(" AND uri NOT LIKE '" + esc + "/%");
      ghost var was := sql;
      var i := 0;
      assert was == was + LikePattern.Levels(0);
      while i < lvl
        invariant 0 <= i && (0 < lvl ==> i <= lvl) && (lvl <= 0 ==> i == 0) && Valid() &&
                  sql == was + LikePattern.Levels(i)
      {
        LevelsStep(i);
        Strcat("/%");
        i := i + 1;
      }
      Strcat("'");
      LevelText(target, lvl);
      assert LikePattern.Levels(i) == LikePattern.Levels(lvl);
      LevelRegroup(old(sql), " AND uri NOT LIKE '", esc, LikePattern.Levels(lvl));
    }
  }

  lemma LevelRegroup(a: string, b: string, e: string, l: string)
    ensures a + (b + e + "/%") + l + "'" == a + (b + e + ("/%" + l) + "'")
  {
  }

  /** desc_build_general_where.  It also takes the criterion arp out of the request. */
  method BuildGeneralWhere(req: Request, fc: Criteria, esc: string) returns (sql: string, fc': Criteria)
    requires esc == Escaped(req.target)
    ensures sql == GeneralText(req, fc) && fc' == fc - {"arp"}
  {
    hide CondText, RestText, Escaped, Opened, TimeConds, TypeCond, LabelCond, Forbid;
    var b := new Sql(1024);
    b.Strcat("WHERE uri LIKE '" + esc + "/%'");
    ghost var s0 := "WHERE " + CondText(Scope(req.target));
    ScopeText(req.target);
    fc' := fc;
    NothingWritten(req.fo);
    if req.discover && "arp" !in fc {
      b.AppendForbidden(req.forbidden, "");
      if "ops" in fc {
        b.AppendForbidden(req.forbiddenOps, "%");
      }
    }
    ForbidPartText(req, fc);
    if "arp" in fc {
      fc' := fc' - {"arp"};
    }
    assert b.sql == s0 + RestText(AND, ForbidPart(req, fc));
    if "lvl" in fc' && fc'["lvl"].Number? {
      b.AppendLevel(req.target, esc, fc'["lvl"].n);
    }
    ghost var base := b.sql;
    assert base == s0 + RestText(AND, ForbidPart(req, fc)) + RestText(AND, LevelPart(req, fc));
    AppendCriteria(b, req.fo, fc', base);
    assert GeneralConds(fc') == GeneralConds(fc) by {
      ArpAside(fc, fc');
    }
    if !b.first {
      b.Strcat(")");
    }
    OpenedClosed(req.fo, GeneralConds(fc));
    BesideText(req, fc);
    sql := b.sql;
    hide Grouped, GeneralConds, ForbidPart, LevelPart, Scope;
    GeneralRegroup(s0, RestText(AND, ForbidPart(req, fc)), RestText(AND, LevelPart(req, fc)),
                   Opened(req.fo, GeneralConds(fc)),
                   if GeneralConds(fc) == End then "" else ")");
  }

  lemma GeneralRegroup(s0: string, a: string, b: string, c: string, d: string)
    ensures s0 + a + b + c + d == s0 + (a + b + (c + d))
  {
  }

  /** The part of desc_build_general_where that writes the criteria. */
  method AppendCriteria(b: Sql, fo: Fo, fc: Criteria, ghost base: string)
    requires b.Valid() && b.first && b.sql == base
    modifies b
    ensures b.Valid() && b.sql == base + Opened(fo, GeneralConds(fc)) && (b.first <==> GeneralConds(fc) == End)
  {
    hide CondText, RestText, Opened, TimeConds, TypeCond, LabelCond;
    b.AppendTimes(fc, fo);
    ghost var done := TimeConds(fc, |TIMES|);
    AppendEnd(done);
    AppendOneMore(done, TypePart(fc));
    if "ty" in fc {
      b.AppendType(fc["ty"], fo, base, done);
    }
    done := Append(done, TypePart(fc));
    AppendEnd(done);
    AppendOneMore(done, LabelPart(fc));
    if "lbl" in fc {
      b.AppendLabels(fc["lbl"], fo, base, done);
    }
  }

  /** What one line of the table adds to the clause: nothing, or the text of its condition. */
  method EntryText(m: FcMap, v: Crit) returns (buf: string)
    ensures var c := EntryCond(map[m.shortName := v], m.ty, m);
            if c == End then buf == "" else buf != "" && buf == CondText(c.head)
  {
    hide Escaped, CondText, Decimal, Starred;
    buf := "";
    if m.op == EXISTS {
      NotNullText(m.col);
      buf := m.col + " IS NOT NULL";
    } else if v.Text? && v.s != "" {
      var e := Escape(v.s);
      if m.shortName == "con" || m.shortName == "lnk" {
        StarredEscaped(v.s);
        e := ReplaceStars(e);
      }
      assert e == Escaped(Worded(m, v.s));
      if m.op == CONTAINS {
        LikeText(m.col, "%", Worded(m, v.s), "%");
        buf := m.col + " LIKE '%" + e + "%'";
        ContainsText(m.col, "%", e, "%", " LIKE '%", "%'");
      } else if m.op == IN_ARRAY {
        LikeText(m.col, "%\"", Worded(m, v.s), "\"%");
        buf := m.col + " LIKE '%\"" + e + "\"%'";
        ContainsText(m.col, "%\"", e, "\"%", " LIKE '%\"", "\"%'");
      } else {
        var op := if m.op == LT then "<" else if m.op == GE then ">=" else "=";
        CompareText(m.col, op, Worded(m, v.s));
        buf := m.col + " " + op + " '" + e + "'";
      }
    } else if v.Number? {
      var op := if m.op == LT then "<" else if m.op == GE then ">=" else "=";
      CompareIntText(m.col, op, v.n);
      buf := m.col + " " + op + " " + Decimal(v.n);
    }
  }

  lemma ContainsText(col: string, pre: string, e: string, post: string, a: string, b: string)
    requires a == " LIKE '" + pre && b == post + "'"
    ensures col + a + e + b == col + " LIKE '" + pre + e + post + "'"
  {
  }

  /** desc_build_res_where */
  method BuildTypeWhere(fc: Criteria, ty: int, fo: Fo, table: seq<FcMap>) returns (sql: string)
    ensures sql == TypeText(fc, ty, fo, table)
  {
    hide CondText, RestText, Opened, EntryCond, EntryConds, FoText;
    var b := new Sql(512);
    var i := 0;
    NoEntries(fc, ty, fo);
    while i < |table|
      invariant 0 <= i <= |table| && b.Valid() && fresh(b)
      invariant b.sql == Opened(fo, EntryConds(fc, ty, table[..i])) &&
                (b.first <==> EntryConds(fc, ty, table[..i]) == End)
    {
      var m := table[i];
      ghost var done := EntryConds(fc, ty, table[..i]);
      EntryStep(fc, ty, table, i);
      if m.ty == ty && m.shortName in fc {
        var buf := EntryText(m, fc[m.shortName]);
        if buf != "" {
          OpenedOneMore(fo, done, EntryCond(fc, ty, m).head);
          b.OpenCond(fo);
          b.Strcat(buf);
        }
      }
      i := i + 1;
    }
    assert table[..i] == table;
    OpenedClosed(fo, EntryConds(fc, ty, table));
    if !b.first {
      b.Strcat(")");
    }
    sql := b.sql;
  }

  lemma NoEntries(fc: Criteria, ty: int, fo: Fo)
    ensures EntryConds(fc, ty, []) == End && Opened(fo, End) == ""
  {
  }

  lemma EntryStep(fc: Criteria, ty: int, table: seq<FcMap>, i: nat)
    requires i < |table|
    ensures var c, a, b := EntryCond(fc, ty, table[i]), EntryConds(fc, ty, table[..i]),
            EntryConds(fc, ty, table[..i + 1]);
            && (c == End ==> b == a)
            && (c != End ==> b == Append(a, One(c.head)) && b != End)
            && (table[i].ty != ty || table[i].shortName !in fc ==> c == End)
            && (table[i].ty == ty && table[i].shortName in fc ==>
                  c == EntryCond(map[table[i].shortName := fc[table[i].shortName]], table[i].ty, table[i]))
  {
    assert table[..i + 1][..i] == table[..i] && table[..i + 1][i] == table[i];
    AppendEnd(EntryConds(fc, ty, table[..i]));
    hide EntryConds;
    assert EntryConds(fc, ty, table[..i + 1]) ==
           Append(EntryConds(fc, ty, table[..i]), EntryCond(fc, ty, table[i])) by {
      EntriesUnfold(fc, ty, table[..i + 1]);
    }
  }

  lemma EntriesUnfold(fc: Criteria, ty: int, table: seq<FcMap>)
    requires table != []
    ensures EntryConds(fc, ty, table) ==
            Append(EntryConds(fc, ty, table[..|table| - 1]), EntryCond(fc, ty, table[|table| - 1]))
  {
  }

  /** The WHERE clause db_get_descendants writes for one resource type: readable to its end, and true of
      exactly the rows the criteria select. */
  method BuildWhere(req: Request, fc: Criteria, ty: int, table: seq<FcMap>) returns (sql: string)
    requires Columns(table) && forall m :: m in table ==> m.shortName != "arp"
    ensures ParseWhere(Lex(sql)).Readable?
    ensures forall row: Atom -> Truth, g :: Reads(row, g) ==>
              (Eval(ParseWhere(Lex(sql)).expr, row) == True <==> Selects(req, fc, ty, table, g, row))
  {
    hide Reads, Answers, Escaped, Lex, ParseWhere, GeneralText, TypeText, Selects, Eval, Columns;
    var esc := Escape(req.target);
    var general, fc' := BuildGeneralWhere(req, fc, esc);
    var typed := BuildTypeWhere(fc', ty, req.fo, table);
    EntriesArpAside(fc, fc', ty, table, req.fo);
    sql := general + typed;
    forall row: Atom -> Truth, g | Reads(row, g)
      ensures ParseWhere(Lex(sql)).Readable?
      ensures Eval(ParseWhere(Lex(sql)).expr, row) == True <==> Selects(req, fc, ty, table, g, row)
    {
      WhereMeans(req, fc, ty, table, g, row);
    }
    var g := GeneralRow("", 0, Null, Null, Null, Null);
    AnswersRead(g);
    WhereMeans(req, fc, ty, table, g, Answers(g));
  }

  lemma {:induction false} EntriesArpAside(fc: Criteria, fc': Criteria, ty: int, table: seq<FcMap>, fo: Fo)
    requires fc' == fc - {"arp"} && forall m :: m in table ==> m.shortName != "arp"
    ensures EntryConds(fc', ty, table) == EntryConds(fc, ty, table)
    ensures TypeText(fc', ty, fo, table) == TypeText(fc, ty, fo, table)
  {
    if table != [] {
      var rest, m := table[..|table| - 1], table[|table| - 1];
      assert m in table;
      EntriesArpAside(fc, fc', ty, rest, fo);
    }
  }

  lemma AppendOneMore(a: Conds, b: Conds)
    ensures Append(a, b) == End <==> a == End && b == End
  {
  }

  lemma ArpAside(fc: Criteria, fc': Criteria)
    requires fc' == fc - {"arp"}
    ensures GeneralConds(fc') == GeneralConds(fc)
  {
    TimesArpAside(fc, fc', |TIMES|);
  }

  lemma {:induction false} TimesArpAside(fc: Criteria, fc': Criteria, n: nat)
    requires fc' == fc - {"arp"} && n <= |TIMES|
    ensures TimeConds(fc', n) == TimeConds(fc, n)
  {
    if n > 0 {
      TimesArpAside(fc, fc', n - 1);
    }
  }

  lemma NothingWritten(fo: Fo)
    ensures RestText(AND, End) == "" && Opened(fo, End) == ""
  {
  }

  lemma ScopeText(target: string)
    ensures "WHERE uri LIKE '" + Escaped(target) + "/%'" == "WHERE " + CondText(Scope(target))
  {
    hide Escaped;
    LikeText("uri", "", target, "/%");
    assert "" + target + "/%" == target + "/%";
    hide CondText;
    assert "WHERE " + ("uri" + " LIKE '" + "") == "WHERE uri LIKE '";
    var e := Escaped(target);
    assert "/%" + "'" == "/%'";
    assert "WHERE " + ("uri" + " LIKE '" + "" + e + "/%" + "'") ==
           ("WHERE " + ("uri" + " LIKE '" + "")) + e + ("/%" + "'");
  }

  lemma ForbidPartText(req: Request, fc: Criteria)
    ensures RestText(AND, ForbidPart(req, fc)) ==
            if req.discover && "arp" !in fc
            then RestText(AND, Forbid(req.forbidden, "")) +
              if "ops" in fc then RestText(AND, Forbid(req.forbiddenOps, "%")) else ""
            else ""
  {
    NothingWritten(AND);
    hide Forbid;
    RestAppend(AND, Forbid(req.forbidden, ""), if "ops" in fc then Forbid(req.forbiddenOps, "%") else End);
  }

  lemma BesideText(req: Request, fc: Criteria)
    ensures RestText(AND, Beside(req, fc)) ==
            RestText(AND, ForbidPart(req, fc)) + RestText(AND, LevelPart(req, fc)) +
            RestText(AND, Grouped(req.fo, GeneralConds(fc)))
  {
    hide ForbidPart, LevelPart, Grouped, GeneralConds, RestText;
    var a, b, c := ForbidPart(req, fc), LevelPart(req, fc), Grouped(req.fo, GeneralConds(fc));
    RestAppend(AND, Append(a, b), c);
    RestAppend(AND, a, b);
  }

  lemma GroupText(fo: Fo, items: Conds)
    ensures CondText(Group(fo, items)) == "(" + ChainText(fo, items) + ")"
  {
  }

  lemma NoItems()
    ensures ChainText(OR, End) == "" && TypeItems([]) == End && LabelItems([]) == End
  {
  }

  lemma AlwaysText()
    ensures ChainText(OR, One(Leaf(Always))) == "1=1"
  {
    assert CondText(Leaf(Always)) == "1=1" && RestText(OR, End) == "";
  }

  lemma ChainOneMore(fo: Fo, items: Conds, c: Cond)
    ensures ChainText(fo, Append(items, One(c)))
         == ChainText(fo, items) + ((if items == End then "" else " " + FoText(fo) + " ") + CondText(c))
  {
    hide CondText, FoText;
    if items == End {
      assert RestText(fo, End) == "";
    } else {
      RestAppend(fo, items.tail, One(c));
      RestOne(fo, c);
      assert Append(items, One(c)) == Then(items.head, Append(items.tail, One(c)));
      var x, j := CondText(items.head), " " + FoText(fo) + " ";
      hide RestText, Append;
      assert x + (RestText(fo, items.tail) + (j + CondText(c))) == x + RestText(fo, items.tail) + (j + CondText(c));
    }
  }

  lemma TypeStep(cs: seq<Crit>, i: nat)
    requires i < |cs|
    ensures TypeItems(cs[..i + 1]) != End
    ensures ChainText(OR, TypeItems(cs[..i + 1])) == ChainText(OR, TypeItems(cs[..i])) +
            ((if TypeItems(cs[..i]) == End then "" else " OR ") + "ty = " + Decimal(NumberOf(cs[i])))
  {
    var c := TypeIs(cs[i]);
    assert cs[..i + 1][..i] == cs[..i] && cs[..i + 1][i] == cs[i];
    assert TypeItems(cs[..i + 1]) == Append(TypeItems(cs[..i]), One(c));
    hide TypeItems, ChainText, CondText, Decimal;
    ChainOneMore(OR, TypeItems(cs[..i]), c);
    CompareIntText("ty", "=", NumberOf(cs[i]));
    assert " " + FoText(OR) + " " == " OR ";
    assert "ty" + " " + "=" + " " == "ty = ";
    var j, d := (if TypeItems(cs[..i]) == End then "" else " OR "), Decimal(NumberOf(cs[i]));
    assert j + ("ty = " + d) == j + "ty = " + d;
  }

  lemma OneType(c: Crit)
    ensures ChainText(OR, OrAlways(TypeItems([c]))) == "ty = " + Decimal(NumberOf(c))
  {
    hide ChainText, Decimal, TypeItems;
    NoItems();
    TypeStep([c], 0);
    assert [c][..0] == [] && [c][..1] == [c];
  }

  lemma LabelStep(cs: seq<Crit>, i: nat)
    requires i < |cs|
    ensures if cs[i].Text? then LabelItems(cs[..i + 1]) != End else LabelItems(cs[..i + 1]) == LabelItems(cs[..i])
    ensures cs[i].Text? ==>
            ChainText(OR, LabelItems(cs[..i + 1])) == ChainText(OR, LabelItems(cs[..i])) +
            ((if LabelItems(cs[..i]) == End then "" else " OR ") + "lbl LIKE '%\"" + Escaped(cs[i].s) + "\"%'")
  {
    assert cs[..i + 1][..i] == cs[..i] && cs[..i + 1][i] == cs[i];
    if cs[i].Text? {
      assert LabelItems(cs[..i + 1]) == Append(LabelItems(cs[..i]), One(LabelIs(cs[i].s)));
      LabelText(LabelItems(cs[..i]), cs[i].s);
    } else {
      AppendEnd(LabelItems(cs[..i]));
    }
  }

  lemma LabelText(items: Conds, s: string)
    ensures ChainText(OR, Append(items, One(LabelIs(s)))) == ChainText(OR, items) +
            ((if items == End then "" else " OR ") + "lbl LIKE '%\"" + Escaped(s) + "\"%'")
  {
    hide ChainText, CondText, Escaped;
    ChainOneMore(OR, items, LabelIs(s));
    LikeText("lbl", "%\"", s, "\"%");
    assert " " + FoText(OR) + " " == " OR ";
    LabelRegroup(if items == End then "" else " OR ", Escaped(s));
  }

  lemma LabelRegroup(j: string, e: string)
    ensures j + ("lbl" + " LIKE '" + "%\"" + e + "\"%" + "'") == j + "lbl LIKE '%\"" + e + "\"%'"
  {
    assert "lbl" + " LIKE '" + "%\"" == "lbl LIKE '%\"";
    assert "\"%" + "'" == "\"%'";
  }

  lemma {:induction false} LevelsStep(k: nat)
    ensures LikePattern.Levels(k + 1) == LikePattern.Levels(k) + "/%"
  {
    if k > 0 {
      LevelsStep(k - 1);
    }
  }

  lemma {:induction false} LevelsNoQuote(k: int)
    ensures NoQuote("/%" + LikePattern.Levels(k))
    decreases if k > 0 then k else 0
  {
    if k > 0 {
      LevelsNoQuote(k - 1);
    }
  }

  lemma LevelText(target: string, lvl: int)
    ensures RestText(AND, One(Leaf(NotLike("uri", target + "/%" + LikePattern.Levels(lvl)))))
         == " AND uri NOT LIKE '" + Escaped(target) + ("/%" + LikePattern.Levels(lvl)) + "'"
  {
    hide Escaped, RestText, CondText;
    var end := "/%" + LikePattern.Levels(lvl);
    LevelsNoQuote(lvl);
    hide LikePattern.Levels;
    RestOne(AND, Leaf(NotLike("uri", target + "/%" + LikePattern.Levels(lvl))));
    NotLikeText("uri", "", target, end);
    assert "" + target + end == target + "/%" + LikePattern.Levels(lvl);
    UriText(Escaped(target), end);
  }

  lemma NothingForbidden(end: string)
    ensures RestText(AND, Forbid([], end)) == ""
  {
  }

  lemma OpenedNothing(fo: Fo)
    ensures Opened(fo, End) == ""
  {
  }

  lemma ForbidStep(uris: seq<string>, i: nat, end: string)
    requires i < |uris| && NoQuote(end)
    ensures RestText(AND, Forbid(uris[..i + 1], end))
         == RestText(AND, Forbid(uris[..i], end)) + (" AND uri NOT LIKE '" + Escaped(uris[i]) + end + "'")
  {
    var c := Leaf(NotLike("uri", uris[i] + end));
    assert uris[..i + 1][..i] == uris[..i] && uris[..i + 1][i] == uris[i];
    assert Forbid(uris[..i + 1], end) == Append(Forbid(uris[..i], end), One(c));
    hide Forbid, Escaped, RestText, CondText;
    RestAppend(AND, Forbid(uris[..i], end), One(c));
    RestOne(AND, c);
    assert "" + uris[i] + end == uris[i] + end;
    NotLikeText("uri", "", uris[i], end);
    UriText(Escaped(uris[i]), end);
  }

  lemma UriText(e: string, end: string)
    ensures " " + FoText(AND) + " " + ("uri" + " NOT LIKE '" + "" + e + end + "'") ==
            " AND uri NOT LIKE '" + e + end + "'"
  {
    assert " " + "AND" + " " + ("uri" + " NOT LIKE '" + "") == " AND uri NOT LIKE '";
  }
}
