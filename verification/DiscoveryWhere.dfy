/** Filter criteria compiled into the WHERE clause of a discovery on SQLite. */
module DiscoveryWhere {
  import opened SqlText
  import opened GeneralTable
  import LikePattern

  /** A criterion's value, as far as the compilation looks at it. */
  datatype Crit = Text(s: string) | Number(n: int) | List(items: seq<Crit>) | Other

  type Criteria = map<string, Crit>

  /** Where to search, for whom, and how criteria combine.  The forbidden uris come from access control. */
  datatype Request = Request(target: string, discover: bool, fo: Fo, forbidden: seq<string>, forbiddenOps: seq<string>)

  datatype Op = EXISTS | CONTAINS | IN_ARRAY | LT | GE | EQ

  /** A line of the table that maps criteria to the columns of a resource type. */
  datatype FcMap = FcMap(shortName: string, ty: int, col: string, op: Op)

  // ----- lists of conditions

  function Append(a: Conds, b: Conds): Conds {
    match a case End => b case Then(h, t) => Then(h, Append(t, b))
  }

  function One(c: Cond): Conds {
    Then(c, End)
  }

  lemma {:induction false} RestAppend(fo: Fo, a: Conds, b: Conds)
    ensures RestText(fo, Append(a, b)) == RestText(fo, a) + RestText(fo, b)
  {
    if a.Then? {
      RestAppend(fo, a.tail, b);
      var x := " " + FoText(fo) + " " + CondText(a.head);
      hide CondText, FoText, RestText;
      assert x + (RestText(fo, a.tail) + RestText(fo, b)) == x + RestText(fo, a.tail) + RestText(fo, b);
    }
  }

  lemma {:induction false} AppendGood(a: Conds, b: Conds)
    ensures AllGood(Append(a, b)) <==> AllGood(a) && AllGood(b)
  {
    if a.Then? {
      AppendGood(a.tail, b);
    }
  }

  lemma {:induction false} AppendMeaning(a: Conds, b: Conds, row: Atom -> Truth)
    ensures All(Append(a, b), row) <==> All(a, row) && All(b, row)
    ensures Any(Append(a, b), row) <==> Any(a, row) || Any(b, row)
  {
    if a.Then? {
      AppendMeaning(a.tail, b, row);
    }
  }

  lemma {:induction false} AppendEnd(a: Conds)
    ensures Append(a, End) == a
  {
    if a.Then? {
      AppendEnd(a.tail);
    }
  }

  lemma {:induction false} AppendAssoc(a: Conds, b: Conds, c: Conds)
    ensures Append(Append(a, b), c) == Append(a, Append(b, c))
  {
    if a.Then? {
      AppendAssoc(a.tail, b, c);
    }
  }

  /** A list of conditions in parentheses, if there are any. */
  function Grouped(fo: Fo, items: Conds): Conds {
    if items == End then End else One(Group(fo, items))
  }

  // ----- the conditions a request asks for

  /** The criteria on times: criterion, column, comparison. */
  const TIMES: seq<(string, string, string)> :=
    [("cra", "ct", ">"), ("crb", "ct", "<="), ("exa", "et", ">"), ("exb", "et", "<="), ("ms", "lt", ">"),
     ("us", "lt", "<=")]

  function TimeCond(fc: Criteria, i: nat): Conds
    requires i < |TIMES|
  {
    if TIMES[i].0 in fc && fc[TIMES[i].0].Text?
    then One(Leaf(Compare(TIMES[i].1, TIMES[i].2, fc[TIMES[i].0].s)))
    else End
  }

  function TimeConds(fc: Criteria, n: nat): Conds
    requires n <= |TIMES|
  {
    if n == 0 then End else Append(TimeConds(fc, n - 1), TimeCond(fc, n - 1))
  }

  function NumberOf(c: Crit): int {
    if c.Number? then c.n else 0
  }

  function TypeIs(c: Crit): Cond {
    Leaf(CompareInt("ty", "=", NumberOf(c)))
  }

  function TypeItems(cs: seq<Crit>): Conds {
    if cs == [] then End else Append(TypeItems(cs[..|cs| - 1]), One(TypeIs(cs[|cs| - 1])))
  }

  function OrAlways(items: Conds): Conds {
    if items == End then One(Leaf(Always)) else items
  }

  function TypeCond(c: Crit): Cond {
    Group(OR, OrAlways(TypeItems(if c.List? then c.items else [c])))
  }

  function LabelIs(s: string): Cond {
    Leaf(Like("lbl", "%\"" + s + "\"%"))
  }

  function LabelItems(cs: seq<Crit>): Conds {
    if cs == [] then End
    else
      var c := cs[|cs| - 1];
      Append(LabelItems(cs[..|cs| - 1]), if c.Text? then One(LabelIs(c.s)) else End)
  }

  function LabelCond(c: Crit): Cond {
    Group(OR, OrAlways(LabelItems(if c.List? then c.items else [c])))
  }

  function TypePart(fc: Criteria): Conds {
    if "ty" in fc then One(TypeCond(fc["ty"])) else End
  }

  function LabelPart(fc: Criteria): Conds {
    if "lbl" in fc then One(LabelCond(fc["lbl"])) else End
  }

  function GeneralConds(fc: Criteria): Conds {
    Append(Append(TimeConds(fc, |TIMES|), TypePart(fc)), LabelPart(fc))
  }

  function Scope(target: string): Cond {
    Leaf(Like("uri", target + "/%"))
  }

  function Forbid(uris: seq<string>, end: string): Conds {
    if uris == [] then End
    else Append(Forbid(uris[..|uris| - 1], end), One(Leaf(NotLike("uri", uris[|uris| - 1] + end))))
  }

  function ForbidPart(req: Request, fc: Criteria): Conds {
    if req.discover && "arp" !in fc
    then Append(Forbid(req.forbidden, ""), if "ops" in fc then Forbid(req.forbiddenOps, "%") else End)
    else End
  }

  function LevelPart(req: Request, fc: Criteria): Conds {
    if "lvl" in fc && fc["lvl"].Number?
    then One(Leaf(NotLike("uri", req.target + "/%" + LikePattern.Levels(fc["lvl"].n))))
    else End
  }

  /** The conditions behind the scope. */
  function Beside(req: Request, fc: Criteria): Conds {
    Append(Append(ForbidPart(req, fc), LevelPart(req, fc)), Grouped(req.fo, GeneralConds(fc)))
  }

  function GeneralText(req: Request, fc: Criteria): string {
    "WHERE " + CondText(Scope(req.target)) + RestText(AND, Beside(req, fc))
  }

  // ----- conditions on the columns of one type

  /** con and lnk take '*' for any text. */
  function Starred(s: string): string {
    if s == [] then "" else [if s[0] == '*' then '%' else s[0]] + Starred(s[1..])
  }

  function Worded(m: FcMap, s: string): string {
    if m.shortName == "con" || m.shortName == "lnk" then Starred(s) else s
  }

  /** The wildcard is the only character that changes, and only for those two. */
  lemma {:induction false} WordedAt(m: FcMap, s: string, i: nat)
    requires i < |s|
    ensures |Worded(m, s)| == |s|
    ensures Worded(m, s)[i] == if s[i] == '*' && m.shortName in {"con", "lnk"} then '%' else s[i]
  {
    if |s| > 1 {
      WordedAt(m, s[1..], if i > 0 then i - 1 else 0);
    } else {
      assert Starred(s[1..]) == "";
    }
  }

  function Comparing(op: Op): string {
    match op case LT => "<" case GE => ">=" case _ => "="
  }

  /** The test one line of the table asks for, if any. */
  function EntryCond(fc: Criteria, ty: int, m: FcMap): Conds {
    if m.ty != ty || m.shortName !in fc then End
    else
      var v := fc[m.shortName];
      if m.op == EXISTS then One(Leaf(NotNull(m.col)))
      else if v.Text? && v.s != [] then
        if m.op == CONTAINS then One(Leaf(Like(m.col, "%" + Worded(m, v.s) + "%")))
        else if m.op == IN_ARRAY then One(Leaf(Like(m.col, "%\"" + Worded(m, v.s) + "\"%")))
        else One(Leaf(Compare(m.col, Comparing(m.op), Worded(m, v.s))))
      else if v.Number? then One(Leaf(CompareInt(m.col, Comparing(m.op), v.n)))
      else End
  }

  function EntryConds(fc: Criteria, ty: int, table: seq<FcMap>): Conds {
    if table == [] then End
    else Append(EntryConds(fc, ty, table[..|table| - 1]), EntryCond(fc, ty, table[|table| - 1]))
  }

  function TypeText(fc: Criteria, ty: int, fo: Fo, table: seq<FcMap>): string {
    RestText(AND, Grouped(fo, EntryConds(fc, ty, table)))
  }

  predicate Columns(table: seq<FcMap>) {
    forall i :: 0 <= i < |table| ==> Name(table[i].col) && table[i].col != "1"
  }

  // ----- what the criteria ask of a row, said without conditions

  /** A time criterion counts if its value is a text. */
  predicate Asked(fc: Criteria, name: string) {
    name in fc && fc[name].Text?
  }

  /** Created, expiring and modified after a time (cra, exa, ms), or at the latest then (crb, exb, us). */
  predicate TimesAll(fc: Criteria, g: GeneralRow) {
    && (Asked(fc, "cra") ==> After(g.ct, fc["cra"].s)) && (Asked(fc, "crb") ==> NotAfter(g.ct, fc["crb"].s))
    && (Asked(fc, "exa") ==> After(g.et, fc["exa"].s)) && (Asked(fc, "exb") ==> NotAfter(g.et, fc["exb"].s))
    && (Asked(fc, "ms") ==> After(g.lt, fc["ms"].s)) && (Asked(fc, "us") ==> NotAfter(g.lt, fc["us"].s))
  }

  predicate TimesAny(fc: Criteria, g: GeneralRow) {
    || (Asked(fc, "cra") && After(g.ct, fc["cra"].s)) || (Asked(fc, "crb") && NotAfter(g.ct, fc["crb"].s))
    || (Asked(fc, "exa") && After(g.et, fc["exa"].s)) || (Asked(fc, "exb") && NotAfter(g.et, fc["exb"].s))
    || (Asked(fc, "ms") && After(g.lt, fc["ms"].s)) || (Asked(fc, "us") && NotAfter(g.lt, fc["us"].s))
  }

  predicate TimesAsked(fc: Criteria) {
    || Asked(fc, "cra") || Asked(fc, "crb") || Asked(fc, "exa") || Asked(fc, "exb") || Asked(fc, "ms")
    || Asked(fc, "us")
  }

  /** The values of a criterion that may be a list. */
  function Values(c: Crit): seq<Crit> {
    if c.List? then c.items else [c]
  }

  /** The row has one of the types, type 0 standing for what is not a number; an empty list asks for nothing. */
  predicate TypeHolds(c: Crit, g: GeneralRow) {
    || Values(c) == []
    || exists i :: 0 <= i < |Values(c)| && if Values(c)[i].Number? then Values(c)[i].n == g.ty else g.ty == 0
  }

  predicate HasLabel(c: Crit, g: GeneralRow) {
    c.Text? && g.lbl.Held? && LikePattern.Like("%\"" + c.s + "\"%", g.lbl.text)
  }

  /** The row has one of the labels; a list without any text asks for nothing. */
  predicate LabelHolds(c: Crit, g: GeneralRow) {
    || (forall i :: 0 <= i < |Values(c)| ==> !Values(c)[i].Text?)
    || exists i :: 0 <= i < |Values(c)| && HasLabel(Values(c)[i], g)
  }

  predicate GeneralAll(fc: Criteria, g: GeneralRow) {
    && TimesAll(fc, g)
    && ("ty" in fc ==> TypeHolds(fc["ty"], g))
    && ("lbl" in fc ==> LabelHolds(fc["lbl"], g))
  }

  predicate GeneralAny(fc: Criteria, g: GeneralRow) {
    || TimesAny(fc, g)
    || ("ty" in fc && TypeHolds(fc["ty"], g))
    || ("lbl" in fc && LabelHolds(fc["lbl"], g))
  }

  predicate GeneralAsked(fc: Criteria) {
    TimesAsked(fc) || "ty" in fc || "lbl" in fc
  }

  /** A line of the table asks something of rows of its type if its criterion is given and has a value
      to compare with. */
  predicate EntryAsked(fc: Criteria, ty: int, m: FcMap) {
    && m.ty == ty && m.shortName in fc
    && (m.op == EXISTS || fc[m.shortName].Number? || (fc[m.shortName].Text? && fc[m.shortName].s != ""))
  }

  /** What it asks. */
  predicate EntryHolds(fc: Criteria, ty: int, m: FcMap, row: Atom -> Truth) {
    && EntryAsked(fc, ty, m)
    && var v := fc[m.shortName];
       match m.op
       case EXISTS => row(NotNull(m.col)) == True
       case CONTAINS =>
         if v.Text? then row(Like(m.col, "%" + Worded(m, v.s) + "%")) == True
         else row(CompareInt(m.col, "=", NumberOf(v))) == True
       case IN_ARRAY =>
         if v.Text? then row(Like(m.col, "%\"" + Worded(m, v.s) + "\"%")) == True
         else row(CompareInt(m.col, "=", NumberOf(v))) == True
       case LT =>
         if v.Text? then row(Compare(m.col, "<", Worded(m, v.s))) == True
         else row(CompareInt(m.col, "<", NumberOf(v))) == True
       case GE =>
         if v.Text? then row(Compare(m.col, ">=", Worded(m, v.s))) == True
         else row(CompareInt(m.col, ">=", NumberOf(v))) == True
       case EQ =>
         if v.Text? then row(Compare(m.col, "=", Worded(m, v.s))) == True
         else row(CompareInt(m.col, "=", NumberOf(v))) == True
  }

  /** Scope, forbidden uris and level. */
  predicate PlaceHolds(req: Request, fc: Criteria, uri: string) {
    && LikePattern.Like(req.target + "/%", uri)
    && (req.discover && "arp" !in fc ==>
          forall i :: 0 <= i < |req.forbidden| ==> !LikePattern.Like(req.forbidden[i], uri))
    && (req.discover && "arp" !in fc && "ops" in fc ==>
          forall i :: 0 <= i < |req.forbiddenOps| ==> !LikePattern.Like(req.forbiddenOps[i] + "%", uri))
    && ("lvl" in fc && fc["lvl"].Number? ==>
          !LikePattern.Like(req.target + "/%" + LikePattern.Levels(fc["lvl"].n), uri))
  }

  /** Criteria under AND all hold; under OR one of those that are asked holds, if any is.  The general
      criteria are asked of `g`, those on the columns of the type of `row`. */
  predicate Selects(req: Request, fc: Criteria, ty: int, table: seq<FcMap>, g: GeneralRow, row: Atom -> Truth) {
    && PlaceHolds(req, fc, g.uri)
    && (if req.fo == AND then GeneralAll(fc, g) else GeneralAsked(fc) ==> GeneralAny(fc, g))
    && (if req.fo == AND
        then forall i :: 0 <= i < |table| && EntryAsked(fc, ty, table[i]) ==> EntryHolds(fc, ty, table[i], row)
        else (exists i :: 0 <= i < |table| && EntryAsked(fc, ty, table[i])) ==>
               exists i :: 0 <= i < |table| && EntryHolds(fc, ty, table[i], row))
  }

  // ----- the conditions mean that

  /** The time criterion of a line of the table that is a text. */
  predicate LineMet(fc: Criteria, i: nat, row: Atom -> Truth)
    requires i < |TIMES|
  {
    Asked(fc, TIMES[i].0) && row(Compare(TIMES[i].1, TIMES[i].2, fc[TIMES[i].0].s)) == True
  }

  lemma {:induction false} LinesMean(fc: Criteria, n: nat, row: Atom -> Truth)
    requires n <= |TIMES|
    ensures AllGood(TimeConds(fc, n))
    ensures All(TimeConds(fc, n), row) <==> forall i :: 0 <= i < n && Asked(fc, TIMES[i].0) ==> LineMet(fc, i, row)
    ensures Any(TimeConds(fc, n), row) <==> exists i :: 0 <= i < n && LineMet(fc, i, row)
    ensures TimeConds(fc, n) != End <==> exists i :: 0 <= i < n && Asked(fc, TIMES[i].0)
  {
    if n > 0 {
      LinesMean(fc, n - 1, row);
      var a, b := TimeConds(fc, n - 1), TimeCond(fc, n - 1);
      AppendGood(a, b);
      AppendMeaning(a, b, row);
      LineMeans(fc, n - 1, row);
      hide TimeConds, TimeCond, Asked, LineMet, All, Any, AllGood;
      assert TimeConds(fc, n) == Append(a, b) by {
        TimesStep(fc, n);
      }
    }
  }

  lemma TimesStep(fc: Criteria, n: nat)
    requires 0 < n <= |TIMES|
    ensures TimeConds(fc, n) == Append(TimeConds(fc, n - 1), TimeCond(fc, n - 1))
  {
  }

  lemma LineMeans(fc: Criteria, i: nat, row: Atom -> Truth)
    requires i < |TIMES|
    ensures AllGood(TimeCond(fc, i)) && (TimeCond(fc, i) != End <==> Asked(fc, TIMES[i].0))
    ensures All(TimeCond(fc, i), row) <==> (Asked(fc, TIMES[i].0) ==> LineMet(fc, i, row))
    ensures Any(TimeCond(fc, i), row) <==> LineMet(fc, i, row)
    ensures LineMet(fc, i, row) ==> Asked(fc, TIMES[i].0)
  {
  }

  /** The lines of the table, one by one. */
  lemma SixLines(fc: Criteria, g: GeneralRow, row: Atom -> Truth)
    requires Reads(row, g) && |TIMES| == 6
    ensures LineMet(fc, 0, row) <==> Asked(fc, "cra") && After(g.ct, fc["cra"].s)
    ensures LineMet(fc, 1, row) <==> Asked(fc, "crb") && NotAfter(g.ct, fc["crb"].s)
    ensures LineMet(fc, 2, row) <==> Asked(fc, "exa") && After(g.et, fc["exa"].s)
    ensures LineMet(fc, 3, row) <==> Asked(fc, "exb") && NotAfter(g.et, fc["exb"].s)
    ensures LineMet(fc, 4, row) <==> Asked(fc, "ms") && After(g.lt, fc["ms"].s)
    ensures LineMet(fc, 5, row) <==> Asked(fc, "us") && NotAfter(g.lt, fc["us"].s)
  {
    hide After, NotAfter, TruthOf;
    forall i | 0 <= i < 6 && Asked(fc, TIMES[i].0)
      ensures LineMet(fc, i, row) <==> TruthOf(g, Compare(TIMES[i].1, TIMES[i].2, fc[TIMES[i].0].s)) == True
    {
      assert OnGeneral(Compare(TIMES[i].1, TIMES[i].2, fc[TIMES[i].0].s));
    }
    hide Reads;
    forall col, t | TextColumn(col)
      ensures TruthOf(g, Compare(col, ">", t)) == True <==> After(ColumnOf(g, col), t)
      ensures TruthOf(g, Compare(col, "<=", t)) == True <==> NotAfter(ColumnOf(g, col), t)
    {
      TimeTests(g, col, t);
    }
  }

  /** What the time criteria ask, in the words of the standard. */
  lemma TimesMean(fc: Criteria, g: GeneralRow, row: Atom -> Truth)
    requires Reads(row, g)
    ensures AllGood(TimeConds(fc, |TIMES|)) && (TimeConds(fc, |TIMES|) != End <==> TimesAsked(fc))
    ensures All(TimeConds(fc, |TIMES|), row) <==> TimesAll(fc, g)
    ensures Any(TimeConds(fc, |TIMES|), row) <==> TimesAny(fc, g)
  {
    hide TimeConds, LineMet, Asked, After, NotAfter, Reads, All, Any, AllGood;
    LinesMean(fc, |TIMES|, row);
    SixLines(fc, g, row);
    var names := ["cra", "crb", "exa", "exb", "ms", "us"];
    assert forall i :: 0 <= i < 6 ==> TIMES[i].0 == names[i];
  }

  lemma {:induction false} TypeItemsMean(cs: seq<Crit>, g: GeneralRow, row: Atom -> Truth)
    requires Reads(row, g)
    ensures AllGood(TypeItems(cs)) && (TypeItems(cs) == End <==> cs == [])
    ensures Any(TypeItems(cs), row) <==> exists i :: 0 <= i < |cs| && NumberOf(cs[i]) == g.ty
  {
    if cs != [] {
      var rest, c := cs[..|cs| - 1], cs[|cs| - 1];
      TypeItemsMean(rest, g, row);
      AppendGood(TypeItems(rest), One(TypeIs(c)));
      AppendMeaning(TypeItems(rest), One(TypeIs(c)), row);
      assert OnGeneral(CompareInt("ty", "=", NumberOf(c)));
      assert Meets(TypeIs(c), row) <==> NumberOf(c) == g.ty;
      assert forall i :: 0 <= i < |rest| ==> rest[i] == cs[i];
    }
  }

  lemma {:induction false} LabelItemsMean(cs: seq<Crit>, g: GeneralRow, row: Atom -> Truth)
    requires Reads(row, g)
    ensures AllGood(LabelItems(cs)) && (LabelItems(cs) == End <==> forall i :: 0 <= i < |cs| ==> !cs[i].Text?)
    ensures Any(LabelItems(cs), row) <==> exists i :: 0 <= i < |cs| && HasLabel(cs[i], g)
  {
    if cs != [] {
      var rest, c := cs[..|cs| - 1], cs[|cs| - 1];
      LabelItemsMean(rest, g, row);
      var last := if c.Text? then One(LabelIs(c.s)) else End;
      AppendGood(LabelItems(rest), last);
      AppendMeaning(LabelItems(rest), last, row);
      LabelMeans(c, g, row);
      hide HasLabel, LabelIs, Reads;
      assert forall i :: 0 <= i < |rest| ==> rest[i] == cs[i];
    }
  }

  lemma LabelMeans(c: Crit, g: GeneralRow, row: Atom -> Truth)
    requires Reads(row, g)
    ensures c.Text? ==> (Meets(LabelIs(c.s), row) <==> HasLabel(c, g))
    ensures c.Text? ==> Good(LabelIs(c.s))
  {
    if c.Text? {
      assert OnGeneral(Like("lbl", "%\"" + c.s + "\"%"));
    }
  }

  lemma TypePartMeans(c: Crit, g: GeneralRow, row: Atom -> Truth)
    requires Reads(row, g)
    ensures Good(TypeCond(c)) && (Meets(TypeCond(c), row) <==> TypeHolds(c, g))
  {
    TypeItemsMean(Values(c), g, row);
    assert OnGeneral(Always);
    assert Any(One(Leaf(Always)), row);
  }

  lemma LabelPartMeans(c: Crit, g: GeneralRow, row: Atom -> Truth)
    requires Reads(row, g)
    ensures Good(LabelCond(c)) && (Meets(LabelCond(c), row) <==> LabelHolds(c, g))
  {
    LabelItemsMean(Values(c), g, row);
    assert OnGeneral(Always);
    assert Any(One(Leaf(Always)), row);
  }

  lemma OneMeans(c: Cond, row: Atom -> Truth)
    ensures (All(One(c), row) <==> Meets(c, row)) && (Any(One(c), row) <==> Meets(c, row)) &&
            (AllGood(One(c)) <==> Good(c))
    ensures All(End, row) && !Any(End, row) && AllGood(End)
  {
  }

  lemma GeneralMeans(fc: Criteria, g: GeneralRow, row: Atom -> Truth)
    requires Reads(row, g)
    ensures AllGood(GeneralConds(fc)) && (GeneralConds(fc) != End <==> GeneralAsked(fc))
    ensures All(GeneralConds(fc), row) <==> GeneralAll(fc, g)
    ensures Any(GeneralConds(fc), row) <==> GeneralAny(fc, g)
  {
    hide TimeConds, TypeCond, LabelCond, TypeHolds, LabelHolds, TimesAll, TimesAny, TimesAsked, Reads, All, Any,
         AllGood, Good, Meets;
    var a, b, c := TimeConds(fc, |TIMES|), TypePart(fc), LabelPart(fc);
    TimesMean(fc, g, row);
    AppendGood(a, b);
    AppendMeaning(a, b, row);
    AppendGood(Append(a, b), c);
    AppendMeaning(Append(a, b), c, row);
    OneMeans(Leaf(Always), row);
    if "ty" in fc {
      TypePartMeans(fc["ty"], g, row);
      OneMeans(TypeCond(fc["ty"]), row);
    }
    if "lbl" in fc {
      LabelPartMeans(fc["lbl"], g, row);
      OneMeans(LabelCond(fc["lbl"]), row);
    }
  }

  lemma EntryGood(fc: Criteria, ty: int, m: FcMap)
    requires Name(m.col) && m.col != "1"
    ensures AllGood(EntryCond(fc, ty, m)) && (EntryCond(fc, ty, m).Then? ==> EntryCond(fc, ty, m).tail == End)
  {
  }

  lemma {:induction false} EntriesMean(fc: Criteria, ty: int, table: seq<FcMap>, row: Atom -> Truth)
    requires Columns(table)
    ensures AllGood(EntryConds(fc, ty, table))
    ensures All(EntryConds(fc, ty, table), row) <==>
            forall i :: 0 <= i < |table| && EntryAsked(fc, ty, table[i]) ==> EntryHolds(fc, ty, table[i], row)
    ensures Any(EntryConds(fc, ty, table), row) <==> exists i :: 0 <= i < |table| && EntryHolds(fc, ty, table[i], row)
    ensures EntryConds(fc, ty, table) != End <==> exists i :: 0 <= i < |table| && EntryAsked(fc, ty, table[i])
  {
    if table != [] {
      var rest, m := table[..|table| - 1], table[|table| - 1];
      EntriesMean(fc, ty, rest, row);
      var a, b := EntryConds(fc, ty, rest), EntryCond(fc, ty, m);
      EntryGood(fc, ty, m);
      EntryMeans(fc, ty, m, row);
      AppendGood(a, b);
      AppendMeaning(a, b, row);
      assert EntryConds(fc, ty, table) == Append(a, b);
      hide EntryConds, EntryCond, EntryAsked, EntryHolds, All, Any, AllGood;
      assert forall i :: 0 <= i < |rest| ==> rest[i] == table[i];
    }
  }

  lemma EntryMeans(fc: Criteria, ty: int, m: FcMap, row: Atom -> Truth)
    ensures All(EntryCond(fc, ty, m), row) <==> (EntryAsked(fc, ty, m) ==> EntryHolds(fc, ty, m, row))
    ensures Any(EntryCond(fc, ty, m), row) <==> EntryHolds(fc, ty, m, row)
    ensures EntryCond(fc, ty, m) != End <==> EntryAsked(fc, ty, m)
    ensures EntryHolds(fc, ty, m, row) ==> EntryAsked(fc, ty, m)
  {
    var c := EntryCond(fc, ty, m);
    if c.Then? {
      OneMeans(c.head, row);
      assert c == One(c.head);
    }
  }

  lemma UriTests(pattern: string, g: GeneralRow, row: Atom -> Truth)
    requires Reads(row, g)
    ensures row(Like("uri", pattern)) == True <==> LikePattern.Like(pattern, g.uri)
    ensures row(NotLike("uri", pattern)) == True <==> !LikePattern.Like(pattern, g.uri)
  {
    assert OnGeneral(Like("uri", pattern)) && OnGeneral(NotLike("uri", pattern));
  }

  lemma {:induction false} ForbidMeans(uris: seq<string>, end: string, g: GeneralRow, row: Atom -> Truth)
    requires Reads(row, g)
    ensures AllGood(Forbid(uris, end))
    ensures All(Forbid(uris, end), row) <==> forall i :: 0 <= i < |uris| ==> !LikePattern.Like(uris[i] + end, g.uri)
  {
    if uris != [] {
      var rest, u := uris[..|uris| - 1], uris[|uris| - 1];
      ForbidMeans(rest, end, g, row);
      AppendGood(Forbid(rest, end), One(Leaf(NotLike("uri", u + end))));
      AppendMeaning(Forbid(rest, end), One(Leaf(NotLike("uri", u + end))), row);
      UriTests(u + end, g, row);
      hide Reads, LikePattern.Like;
      assert forall i :: 0 <= i < |rest| ==> rest[i] == uris[i];
    }
  }

  lemma GroupedMeans(fo: Fo, items: Conds, row: Atom -> Truth)
    requires AllGood(items)
    ensures AllGood(Grouped(fo, items))
    ensures All(Grouped(fo, items), row) <==> (if fo == AND then All(items, row) else items != End ==> Any(items, row))
  {
    if items != End {
      OneMeans(Group(fo, items), row);
      assert Meets(Group(fo, items), row) <==> Combined(fo, items, row);
    }
  }

  lemma BesideMeans(req: Request, fc: Criteria, g: GeneralRow, row: Atom -> Truth)
    requires Reads(row, g)
    ensures AllGood(Beside(req, fc))
    ensures LikePattern.Like(req.target + "/%", g.uri) ==>
              (All(Beside(req, fc), row) <==>
                 && PlaceHolds(req, fc, g.uri)
                 && (if req.fo == AND then GeneralAll(fc, g) else GeneralAsked(fc) ==> GeneralAny(fc, g)))
  {
    hide GeneralConds, GeneralAll, GeneralAny, GeneralAsked, Grouped, Reads, LikePattern.Like;
    var a, b, c := ForbidPart(req, fc), LevelPart(req, fc), Grouped(req.fo, GeneralConds(fc));
    GeneralMeans(fc, g, row);
    GroupedMeans(req.fo, GeneralConds(fc), row);
    ForbidPartMeans(req, fc, g, row);
    LevelPartMeans(req, fc, g, row);
    hide ForbidPart, LevelPart, All, Any, AllGood;
    AppendGood(a, b);
    AppendMeaning(a, b, row);
    AppendGood(Append(a, b), c);
    AppendMeaning(Append(a, b), c, row);
  }

  lemma ForbidPartMeans(req: Request, fc: Criteria, g: GeneralRow, row: Atom -> Truth)
    requires Reads(row, g)
    ensures AllGood(ForbidPart(req, fc))
    ensures All(ForbidPart(req, fc), row) <==>
            && (req.discover && "arp" !in fc ==>
                  forall i :: 0 <= i < |req.forbidden| ==> !LikePattern.Like(req.forbidden[i], g.uri))
            && (req.discover && "arp" !in fc && "ops" in fc ==>
                  forall i :: 0 <= i < |req.forbiddenOps| ==> !LikePattern.Like(req.forbiddenOps[i] + "%", g.uri))
  {
    hide Reads, LikePattern.Like;
    var a, b := Forbid(req.forbidden, ""), if "ops" in fc then Forbid(req.forbiddenOps, "%") else End;
    ForbidMeans(req.forbidden, "", g, row);
    ForbidMeans(req.forbiddenOps, "%", g, row);
    AppendGood(a, b);
    AppendMeaning(a, b, row);
    hide Forbid;
    assert forall i :: 0 <= i < |req.forbidden| ==> req.forbidden[i] + "" == req.forbidden[i];
  }

  lemma LevelPartMeans(req: Request, fc: Criteria, g: GeneralRow, row: Atom -> Truth)
    requires Reads(row, g)
    ensures AllGood(LevelPart(req, fc))
    ensures All(LevelPart(req, fc), row) <==>
            ("lvl" in fc && fc["lvl"].Number? ==>
               !LikePattern.Like(req.target + "/%" + LikePattern.Levels(fc["lvl"].n), g.uri))
  {
    if "lvl" in fc && fc["lvl"].Number? {
      UriTests(req.target + "/%" + LikePattern.Levels(fc["lvl"].n), g, row);
    }
  }

  /** The chain of conditions the whole clause is made of. */
  function Whole(req: Request, fc: Criteria, ty: int, table: seq<FcMap>): Conds {
    Then(Scope(req.target), Append(Beside(req, fc), Grouped(req.fo, EntryConds(fc, ty, table))))
  }

  lemma WholeText(req: Request, fc: Criteria, ty: int, table: seq<FcMap>)
    ensures GeneralText(req, fc) + TypeText(fc, ty, req.fo, table) ==
            "WHERE " + ChainText(AND, Whole(req, fc, ty, table))
  {
    hide Beside, Grouped, EntryConds, CondText, RestText;
    var a, b := Beside(req, fc), Grouped(req.fo, EntryConds(fc, ty, table));
    RestAppend(AND, a, b);
    var w, x := "WHERE ", CondText(Scope(req.target));
    assert ChainText(AND, Whole(req, fc, ty, table)) == x + (RestText(AND, a) + RestText(AND, b));
    assert w + x + RestText(AND, a) + RestText(AND, b) == w + (x + (RestText(AND, a) + RestText(AND, b)));
  }

  /** The clause is readable to its end, and a row it holds for is a row the criteria select: a clause
      with a dangling operator or a misplaced parenthesis would be neither. */
  lemma WhereMeans(req: Request, fc: Criteria, ty: int, table: seq<FcMap>, g: GeneralRow, row: Atom -> Truth)
    requires Columns(table) && Reads(row, g)
    ensures var where := ParseWhere(Lex(GeneralText(req, fc) + TypeText(fc, ty, req.fo, table)));
            where.Readable? && (Eval(where.expr, row) == True <==> Selects(req, fc, ty, table, g, row))
  {
    hide Beside, Grouped, EntryConds, CondText, RestText, Lex, ParseWhere, GeneralText, TypeText, ChainText, ChainExpr,
         GeneralAll, GeneralAny, GeneralAsked, EntryAsked, EntryHolds, PlaceHolds, Reads;
    var all := Whole(req, fc, ty, table);
    WholeText(req, fc, ty, table);
    BesideMeans(req, fc, g, row);
    EntriesMean(fc, ty, table, row);
    GroupedMeans(req.fo, EntryConds(fc, ty, table), row);
    AppendGood(Beside(req, fc), Grouped(req.fo, EntryConds(fc, ty, table)));
    AppendMeaning(Beside(req, fc), Grouped(req.fo, EntryConds(fc, ty, table)), row);
    ScopeMeans(req, fc, g, row);
    hide Scope;
    WholeGood(all);
    hide All, Any, AllGood, Meets;
    WhereReadsBack(all);
    ChainUnknown(AND, all, row);
    WholeMeans(all, row);
  }

  lemma ScopeMeans(req: Request, fc: Criteria, g: GeneralRow, row: Atom -> Truth)
    requires Reads(row, g)
    ensures Good(Scope(req.target))
    ensures Meets(Scope(req.target), row) <==> LikePattern.Like(req.target + "/%", g.uri)
    ensures PlaceHolds(req, fc, g.uri) ==> LikePattern.Like(req.target + "/%", g.uri)
  {
    UriTests(req.target + "/%", g, row);
  }

  lemma WholeGood(all: Conds)
    requires all.Then? && Good(all.head) && AllGood(all.tail)
    ensures AllGood(all)
  {
  }

  lemma WholeMeans(all: Conds, row: Atom -> Truth)
    requires all.Then?
    ensures Combined(AND, all, row) <==> Meets(all.head, row) && All(all.tail, row)
  {
  }

  /** With nothing forbidden, scope and level ask for 1 to `lvl` levels below the target. */
  lemma ScopeAndLevel(req: Request, fc: Criteria, uri: string)
    requires LikePattern.Plain(req.target) && "lvl" in fc && fc["lvl"].Number?
    requires !req.discover || (req.forbidden == [] && req.forbiddenOps == [])
    ensures PlaceHolds(req, fc, uri) <==>
            LikePattern.Beneath(req.target, uri) && 1 <= LikePattern.Depth(req.target, uri) <= fc["lvl"].n
  {
    LikePattern.LevelKeeps(req.target, fc["lvl"].n, uri);
  }
}
