/** Parsing what was printed gives back the value, up to the nesting limit and no further. */
module JsonRoundTrip {
  import opened JsonValue
  import opened JsonText
  import opened JsonLiteral
  import opened JsonMeaning
  import opened JsonQuotation
  import opened JsonGrammar
  import opened JsonSyntax

  // ----- numbers

  function TenTo(k: nat): nat {
    if k == 0 then 1 else 10 * TenTo(k - 1)
  }

  lemma {:induction false} DigitsShort(n: nat, k: nat)
    requires k >= 1 && n < TenTo(k)
    ensures |Digits(n)| <= k
  {
    if n >= 10 {
      DigitsShort(n / 10, k - 1);
    }
  }

  lemma Int32Short(n: int)
    requires INT_MIN <= n <= INT_MAX
    ensures |IntText(n)| <= 11
  {
    assert TenTo(5) == 100000 by {
      assert TenTo(3) == 1000;
    }
    assert TenTo(10) == 10000000000 by {
      assert TenTo(8) == 100000000 by {
        assert TenTo(6) == 1000000;
      }
    }
    DigitsShort(if n < 0 then -n else n, 10);
  }

  lemma {:induction false} DigitsSpell(n: nat)
    ensures DigitsValue(Digits(n)) == n
  {
    if n >= 10 {
      DigitsSpell(n / 10);
      var t := Digits(n);
      assert t[..|t| - 1] == Digits(n / 10);
    }
  }

  function NumeralOf(n: int): Numeral {
    Numeral(n < 0, Digits(if n < 0 then -n else n), false, [], NoExponent)
  }

  /** An int32 is printed as a numeral that denotes it. */
  lemma NumeralPrinted(n: int)
    requires INT_MIN <= n <= INT_MAX
    ensures GoodNumeral(NumeralOf(n)) && NumeralText(NumeralOf(n)) == IntText(n) && |IntText(n)| <= 63
    ensures NumeralValue(NumeralOf(n)) == n as real
  {
    Int32Short(n);
    NumeralSpelled(n);
    NumeralDenotes(n);
  }

  lemma NumeralSpelled(n: int)
    ensures GoodNumeral(NumeralOf(n)) && NumeralText(NumeralOf(n)) == IntText(n)
  {
    hide Digits;
    var t := NumeralOf(n);
    assert FractionText(t) == [] && ExponentText(t) == [];
    assert SignText(t) + t.whole + [] + [] == SignText(t) + t.whole;
    assert [] + t.whole == t.whole;
  }

  lemma NumeralDenotes(n: int)
    requires GoodNumeral(NumeralOf(n))
    ensures NumeralValue(NumeralOf(n)) == n as real
  {
    DigitsSpell(if n < 0 then -n else n);
    hide Digits, DigitsValue, GoodNumeral;
    NoDigits();
    ToTheZero(n as real);
    assert Magnitude(NumeralOf(n)) == (if n < 0 then -n else n) as real;
  }

  // ----- what is printed is a JSON text

  /** The syntax of the text that is printed for a value. */
  function SyntaxOf(v: Value, fmt: bool, depth: nat): Syntax
    requires IntOnly(v)
    decreases v, 1
  {
    match v
    case Null => NullWord
    case False => FalseWord
    case True => TrueWord
    case Number(d) => NumberOf(NumeralOf(d.Floor))
    case String(s) => StringOf(Quotation(AllPrinted(s), false))
    case Array(items) => ArrayOf([], ElementsOf(items, fmt, depth + 1, []))
    case Object(members) => ObjectOf(NewLine(fmt, depth), PairingsOf(members, fmt, depth + 1))
  }

  function ElementsOf(items: Items, fmt: bool, depth: nat, before: Bytes): SyntaxItems
    requires IntOnlyItems(items)
    decreases items, 0
  {
    match items
    case NoItems => NoMore
    case Item(head, rest) =>
      Element(before, SyntaxOf(head, fmt, depth), [], ElementsOf(rest, fmt, depth, Layout(fmt, [SPACE])))
  }

  function PairingsOf(members: Members, fmt: bool, depth: nat): SyntaxMembers
    requires IntOnlyMembers(members) && depth >= 1
    decreases members, 0
  {
    match members
    case NoMembers => NoneLeft
    case Member(key, value, more) =>
      Pairing(NewLine(fmt, depth), Quotation(AllPrinted(key), false), [], Layout(fmt, [TAB]),
              SyntaxOf(value, fmt, depth),
              if more.NoMembers? then NewLine(fmt, depth - 1) else [], PairingsOf(more, fmt, depth))
  }

  /** A new line and its indentation. */
  function NewLine(fmt: bool, depth: nat): (t: Bytes)
    ensures Spaces(t)
  {
    Layout(fmt, [NEWLINE]) + Layout(fmt, Tabs(depth))
  }

  /** The syntax is that of the printed text, and denotes the value. */
  lemma {:induction false} Printing(v: Value, fmt: bool, depth: nat)
    requires IntOnly(v)
    ensures var s := SyntaxOf(v, fmt, depth); GoodSyntax(s) && Text(s) == ValueText(v, fmt, depth) && Denoted(s) == v
    decreases v, 1
  {
    match v
    case Array(items) => PrintingArray(items, fmt, depth);
    case Object(members) => PrintingObject(members, fmt, depth);
    case _ => PrintingScalar(v, fmt, depth);
  }

  lemma PrintingScalar(v: Value, fmt: bool, depth: nat)
    requires IntOnly(v) && !v.Array? && !v.Object?
    ensures var s := SyntaxOf(v, fmt, depth); GoodSyntax(s) && Text(s) == ValueText(v, fmt, depth) && Denoted(s) == v
  {
    hide NumeralOf, GoodNumeral, NumeralText, NumeralValue, IntText, AllPrinted, Quoted, StringText, Denotations,
         UpToNul;
    match v
    case Number(d) => NumeralPrinted(d.Floor);
    case String(s) => StringPrinted(s);
    case _ =>
  }

  lemma {:induction false} PrintingArray(items: Items, fmt: bool, depth: nat)
    requires IntOnlyItems(items)
    ensures var s := SyntaxOf(Array(items), fmt, depth);
            GoodSyntax(s) && Text(s) == ValueText(Array(items), fmt, depth) && Denoted(s) == Array(items)
    decreases items, 2
  {
    PrintingItems(items, fmt, depth + 1, []);
    var s := ElementsOf(items, fmt, depth + 1, []);
    assert items.NoItems? ==> ItemsText(items, fmt, depth + 1) == [];
    hide ElementsText, ItemsText, GoodItems, DenotedItems;
    assert [] + ItemsText(items, fmt, depth + 1) == ItemsText(items, fmt, depth + 1);
  }

  lemma StringPrinted(s: CString)
    ensures Acceptable(Quotation(AllPrinted(s), false)) && Quoted(Quotation(AllPrinted(s), false)) == StringText(s)
    ensures UpToNul(Denotations(AllPrinted(s))) == s
  {
    AllPrintedDenote(s);
    WellFormedAcceptable(AllPrinted(s));
    assert [QUOTE] + (EscapedText(s) + [QUOTE]) == [QUOTE] + EscapedText(s) + [QUOTE];
  }

  lemma {:induction false} PrintingItems(items: Items, fmt: bool, depth: nat, before: Bytes)
    requires IntOnlyItems(items) && Spaces(before)
    ensures var s := ElementsOf(items, fmt, depth, before);
            GoodItems(s) && DenotedItems(s) == items &&
            (items.Item? ==> ElementsText(s) == before + ItemsText(items, fmt, depth))
    decreases items, 0
  {
    if items.Item? {
      var gap := Layout(fmt, [SPACE]);
      Printing(items.head, fmt, depth);
      PrintingItems(items.rest, fmt, depth, gap);
      hide SyntaxOf, Text, ValueText, Denoted, GoodSyntax;
      var s := ElementsOf(items, fmt, depth, before);
      assert MoreElements(s.rest) == AfterItem(items.rest, fmt, depth);
      var head := ValueText(items.head, fmt, depth);
      assert [] + MoreElements(s.rest) == MoreElements(s.rest);
      assert ElementsText(s) == before + (head + ([] + MoreElements(s.rest)));
    }
  }

  lemma {:induction false} PrintingObject(members: Members, fmt: bool, depth: nat)
    requires IntOnlyMembers(members)
    ensures var s := SyntaxOf(Object(members), fmt, depth);
            GoodSyntax(s) && Text(s) == ValueText(Object(members), fmt, depth) && Denoted(s) == Object(members)
    decreases members, 2
  {
    hide PairingsText, MembersText, GoodMembers, DenotedMembers, Text, ValueText, Layout, Tabs, PairingsOf;
    PrintingMembers(members, fmt, depth + 1);
    ObjectPrinted(members, fmt, depth);
  }

  lemma ObjectPrinted(members: Members, fmt: bool, depth: nat)
    requires IntOnlyMembers(members)
    requires members.Member? ==>
               PairingsText(PairingsOf(members, fmt, depth + 1)) ==
               Layout(fmt, [NEWLINE]) + MembersText(members, fmt, depth + 1) + Layout(fmt, Tabs(depth))
    ensures Text(SyntaxOf(Object(members), fmt, depth)) == ValueText(Object(members), fmt, depth)
  {
    NoMembersPrinted(fmt, depth);
    hide PairingsText, MembersText;
    var nl, inner, tabs := Layout(fmt, [NEWLINE]), MembersText(members, fmt, depth + 1), Layout(fmt, Tabs(depth));
    ObjectRegroup(nl, inner, tabs);
    var s := SyntaxOf(Object(members), fmt, depth);
    assert s.members.NoneLeft? ==> nl + tabs == nl + inner + tabs;
    hide Layout;
    assert Text(s) == [LBRACE] + (nl + inner + tabs + [RBRACE]);
  }

  lemma ObjectRegroup(nl: Bytes, inner: Bytes, tabs: Bytes)
    ensures nl + inner + tabs + [RBRACE] == nl + (inner + (tabs + [RBRACE]))
  {
  }

  lemma NoMembersPrinted(fmt: bool, depth: nat)
    ensures MembersText(NoMembers, fmt, depth + 1) == []
  {
  }

  lemma {:induction false} PrintingMembers(members: Members, fmt: bool, depth: nat)
    requires IntOnlyMembers(members) && depth >= 1
    ensures var s := PairingsOf(members, fmt, depth);
            && GoodMembers(s) && DenotedMembers(s) == members
            && (members.Member? ==>
                  PairingsText(s) == Layout(fmt, [NEWLINE]) + MembersText(members, fmt, depth) +
                  Layout(fmt, Tabs(depth - 1)))
    decreases members, 0
  {
    if members.Member? {
      Printing(members.value, fmt, depth);
      PrintingMembers(members.more, fmt, depth);
      StringPrinted(members.key);
      hide SyntaxOf, Text, ValueText, Denoted, GoodSyntax, Quoted, StringText, Denotations, UpToNul, AllPrinted;
      PairingPrinted(members, fmt, depth);
    }
  }

  /** The text of one pairing and what follows it. */
  lemma PairingPrinted(members: Members, fmt: bool, depth: nat)
    requires members.Member? && IntOnlyMembers(members) && depth >= 1
    requires Text(SyntaxOf(members.value, fmt, depth)) == ValueText(members.value, fmt, depth)
    requires Quoted(Quotation(AllPrinted(members.key), false)) == StringText(members.key)
    requires members.more.Member? ==>
               PairingsText(PairingsOf(members.more, fmt, depth)) ==
               Layout(fmt, [NEWLINE]) + MembersText(members.more, fmt, depth) + Layout(fmt, Tabs(depth - 1))
    ensures PairingsText(PairingsOf(members, fmt, depth)) ==
            Layout(fmt, [NEWLINE]) + MembersText(members, fmt, depth) + Layout(fmt, Tabs(depth - 1))
  {
    hide SyntaxOf, Text, ValueText, Quoted, StringText, AllPrinted;
    var s := PairingsOf(members, fmt, depth);
    var nl, tabs, less, tab := Layout(fmt, [NEWLINE]), Layout(fmt, Tabs(depth)), Layout(fmt, Tabs(depth - 1)),
        Layout(fmt, [TAB]);
    var key, value := StringText(members.key), ValueText(members.value, fmt, depth);
    var after := AfterMember(members.more, fmt, depth);
    AfterPrinted(members.more, fmt, depth);
    PairingRegroup(nl, tabs, key, tab, value, s.after + MorePairings(s.more), after, less);
  }

  lemma AfterPrinted(more: Members, fmt: bool, depth: nat)
    requires IntOnlyMembers(more) && depth >= 1
    requires more.Member? ==>
               PairingsText(PairingsOf(more, fmt, depth)) ==
               Layout(fmt, [NEWLINE]) + MembersText(more, fmt, depth) + Layout(fmt, Tabs(depth - 1))
    ensures (if more.NoMembers? then NewLine(fmt, depth - 1) else []) + MorePairings(PairingsOf(more, fmt, depth)) ==
            AfterMember(more, fmt, depth) + Layout(fmt, Tabs(depth - 1))
  {
    hide PairingsText, MembersText, Layout, SyntaxOf, AllPrinted, Tabs;
    var nl, less := Layout(fmt, [NEWLINE]), Layout(fmt, Tabs(depth - 1));
    NoMembersPrinted(fmt, depth - 1);
    if more.Member? {
      var text := MembersText(more, fmt, depth);
      assert [] + ([COMMA] + (nl + text + less)) == [COMMA] + (nl + text) + less;
    }
  }

  lemma PairingRegroup(nl: Bytes, tabs: Bytes, key: Bytes, tab: Bytes, value: Bytes, g: Bytes, after: Bytes,
                       less: Bytes)
    requires g == after + less
    ensures nl + tabs + (key + ([] + ([COLON] + (tab + (value + g))))) ==
            nl + (tabs + (key + ([COLON] + (tab + (value + after))))) + less
  {
    var a, b := tab + (value + g), tab + (value + after);
    assert a == b + less;
    assert [] + ([COLON] + a) == [COLON] + b + less;
    assert key + ([COLON] + b + less) == key + ([COLON] + b) + less;
  }

  // ----- the round trip

  /** Printing then parsing gives back the value and consumes the whole text, formatted or not,
      if the value nests at most 1000 deep; a deeper value is printed but refused. */
  lemma PrintParseRoundTrip(v: Value, fmt: bool)
    requires IntOnly(v)
    ensures 0 !in ValueText(v, fmt, 0)
    ensures ParseDocument(ValueText(v, fmt, 0)) == Expected(0, Nesting(v), v, |ValueText(v, fmt, 0)|)
    ensures ParseWholeDocument(ValueText(v, fmt, 0)) == Expected(0, Nesting(v), v, |ValueText(v, fmt, 0)|)
  {
    hide Nesting, ValueText, SyntaxOf, Text, Denoted, GoodSyntax, ParseDocument, ParseWholeDocument;
    TextHasNoNul(v, fmt, 0);
    Printing(v, fmt, 0);
    var s := SyntaxOf(v, fmt, 0);
    assert Document([], s, []) == Text(s);
    EveryTextAccepted([], s, []);
  }

  lemma {:induction false} EscapedHasNoNul(s: CString)
    ensures 0 !in EscapedText(s)
  {
    if s != [] {
      EscapedHasNoNul(s[1..]);
    }
  }

  lemma {:induction false} TextHasNoNul(v: Value, fmt: bool, depth: nat)
    requires IntOnly(v)
    ensures 0 !in ValueText(v, fmt, depth)
    decreases v
  {
    match v
    case String(s) => EscapedHasNoNul(s);
    case Array(items) => ItemsHaveNoNul(items, fmt, depth + 1);
    case Object(members) => MembersHaveNoNul(members, fmt, depth + 1);
    case _ =>
  }

  lemma {:induction false} ItemsHaveNoNul(items: Items, fmt: bool, depth: nat)
    requires IntOnlyItems(items)
    ensures 0 !in ItemsText(items, fmt, depth)
    decreases items
  {
    if items.Item? {
      TextHasNoNul(items.head, fmt, depth);
      ItemsHaveNoNul(items.rest, fmt, depth);
    }
  }

  lemma {:induction false} MembersHaveNoNul(members: Members, fmt: bool, depth: nat)
    requires IntOnlyMembers(members)
    ensures 0 !in MembersText(members, fmt, depth)
    decreases members
  {
    if members.Member? {
      hide ValueText, EscapedText;
      EscapedHasNoNul(members.key);
      TextHasNoNul(members.value, fmt, depth);
      MembersHaveNoNul(members.more, fmt, depth);
    }
  }
}
