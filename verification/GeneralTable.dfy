/** A row of the general table, and how SQLite answers a test of one of its columns: text by text order,
    types as integers, LIKE without regard to case, and unknown where the column is NULL. */
module GeneralTable {
  import opened SqlText
  import LikePattern

  datatype Column = Null | Held(text: string)

  datatype GeneralRow = GeneralRow(uri: string, ty: int, ct: Column, et: Column, lt: Column, lbl: Column)

  /** Text order: the first character that differs decides, and a beginning comes before the whole. */
  predicate Earlier(a: string, b: string) {
    b != "" && (a == "" || a[0] < b[0] || (a[0] == b[0] && Earlier(a[1..], b[1..])))
  }

  lemma {:induction false} EarlierTotal(a: string, b: string)
    ensures !Earlier(a, b) <==> a == b || Earlier(b, a)
  {
    if a != "" && b != "" && a[0] == b[0] {
      EarlierTotal(a[1..], b[1..]);
      assert a == [a[0]] + a[1..] && b == [b[0]] + b[1..];
    }
  }

  function Truly(b: bool): Truth {
    if b then True else False
  }

  function Negated(t: Truth): Truth {
    match t case True => False case False => True case Unknown => Unknown
  }

  /** A comparison, given whether the left side is smaller and whether the sides are the same. */
  predicate Satisfies(op: string, less: bool, same: bool) {
    if op == "<" then less
    else if op == "<=" then less || same
    else if op == ">" then !less && !same
    else if op == ">=" then !less
    else same
  }

  function ColumnOf(g: GeneralRow, col: string): Column {
    if col == "ct" then g.ct else if col == "et" then g.et else if col == "lt" then g.lt
    else if col == "lbl" then g.lbl else Held(g.uri)
  }

  predicate TextColumn(col: string) {
    col == "ct" || col == "et" || col == "lt" || col == "lbl" || col == "uri"
  }

  /** A test of the general table alone, of texts as texts and types as numbers. */
  predicate OnGeneral(a: Atom) {
    match a
    case CompareInt(col, op, _) => col == "ty" && Comparison(op)
    case Compare(col, op, _) => TextColumn(col) && Comparison(op)
    case Always => true
    case _ => TextColumn(a.col)
  }

  function LikeTruth(v: Column, pattern: string): Truth {
    if v.Null? then Unknown else Truly(LikePattern.Like(pattern, v.text))
  }

  function TruthOf(g: GeneralRow, a: Atom): Truth
    requires OnGeneral(a)
  {
    match a
    case Like(col, p) => LikeTruth(ColumnOf(g, col), p)
    case NotLike(col, p) => Negated(LikeTruth(ColumnOf(g, col), p))
    case NotNull(col) => Truly(ColumnOf(g, col).Held?)
    case Compare(col, op, t) =>
      var v := ColumnOf(g, col);
      if v.Null? then Unknown else Truly(Satisfies(op, Earlier(v.text, t), v.text == t))
    case CompareInt(_, op, n) => Truly(Satisfies(op, g.ty < n, g.ty == n))
    case Always => True
  }

  /** The tests of the general table are answered by the row. */
  ghost predicate Reads(row: Atom -> Truth, g: GeneralRow) {
    forall a :: OnGeneral(a) ==> row(a) == TruthOf(g, a)
  }

  /** The row alone, nothing being known of other tables. */
  function Answers(g: GeneralRow): Atom -> Truth {
    (a: Atom) => if OnGeneral(a) then TruthOf(g, a) else Unknown
  }

  lemma AnswersRead(g: GeneralRow)
    ensures Reads(Answers(g), g)
  {
  }

  // ----- times

  predicate After(v: Column, t: string) {
    v.Held? && Earlier(t, v.text)
  }

  predicate NotAfter(v: Column, t: string) {
    v.Held? && !Earlier(t, v.text)
  }

  lemma TimeTests(g: GeneralRow, col: string, t: string)
    requires TextColumn(col)
    ensures TruthOf(g, Compare(col, ">", t)) == True <==> After(ColumnOf(g, col), t)
    ensures TruthOf(g, Compare(col, "<=", t)) == True <==> NotAfter(ColumnOf(g, col), t)
  {
    if ColumnOf(g, col).Held? {
      EarlierTotal(t, ColumnOf(g, col).text);
    }
  }
}
