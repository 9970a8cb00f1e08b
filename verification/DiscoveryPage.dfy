/** How a page of a discovery is computed on PostgreSQL: one query to see which resource types occur, then
    a UNION ALL with one branch for each type, each branch cut to what the page can need. */
module DiscoveryPage {

  /** A row that meets the conditions on the general table. */
  datatype Row = Row(id: int, ty: int)

  // ----- ORDER BY, LIMIT and OFFSET

  predicate Before(desc: bool, a: Row, b: Row) {
    if desc then a.id > b.id else a.id < b.id
  }

  function Insert(desc: bool, r: Row, s: seq<Row>): seq<Row> {
    if s == [] || !Before(desc, s[0], r) then [r] + s else [s[0]] + Insert(desc, r, s[1..])
  }

  function OrderBy(desc: bool, rows: seq<Row>): seq<Row> {
    if rows == [] then [] else Insert(desc, rows[0], OrderBy(desc, rows[1..]))
  }

  function Take(s: seq<Row>, k: nat): seq<Row> {
    if k < |s| then s[..k] else s
  }

  function Page(s: seq<Row>, lim: nat, ofst: nat): seq<Row> {
    if ofst < |s| then Take(s[ofst..], lim) else []
  }

  predicate DistinctIds(s: seq<Row>) {
    forall i, j :: 0 <= i < j < |s| ==> s[i].id != s[j].id
  }

  predicate Ordered(desc: bool, s: seq<Row>) {
    forall i, j :: 0 <= i < j < |s| ==> Before(desc, s[i], s[j])
  }

  lemma {:induction false} InsertMembers(desc: bool, r: Row, s: seq<Row>)
    ensures forall x :: x in Insert(desc, r, s) <==> x == r || x in s
  {
    if s != [] && Before(desc, s[0], r) {
      InsertMembers(desc, r, s[1..]);
      assert s == [s[0]] + s[1..];
    }
  }

  lemma {:induction false} InsertOrdered(desc: bool, r: Row, s: seq<Row>)
    requires Ordered(desc, s) && forall x :: x in s ==> x.id != r.id
    ensures Ordered(desc, Insert(desc, r, s))
  {
    if s != [] && Before(desc, s[0], r) {
      var rest := s[1..];
      assert forall x :: x in rest ==> x in s;
      InsertOrdered(desc, r, rest);
      InsertMembers(desc, r, rest);
      assert forall x :: x in rest ==> Before(desc, s[0], x);
    } else if s != [] {
      assert s[0] in s;
    }
  }

  /** ORDER BY on distinct ids: the same rows, in strict order. */
  lemma {:induction false} OrderByOrders(desc: bool, rows: seq<Row>)
    ensures forall x :: x in OrderBy(desc, rows) <==> x in rows
    ensures DistinctIds(rows) ==> Ordered(desc, OrderBy(desc, rows))
  {
    if rows != [] {
      var rest := rows[1..];
      OrderByOrders(desc, rest);
      InsertMembers(desc, rows[0], OrderBy(desc, rest));
      assert rows == [rows[0]] + rest;
      if DistinctIds(rows) {
        assert DistinctIds(rest);
        forall x | x in rest
          ensures x.id != rows[0].id
        {
          var i :| 0 <= i < |rest| && rest[i] == x;
          assert rows[i + 1] == x;
        }
        InsertOrdered(desc, rows[0], OrderBy(desc, rest));
      }
    }
  }

  /** There is only one such order, so any database gives it. */
  lemma {:induction false} OrderUnique(desc: bool, a: seq<Row>, b: seq<Row>)
    requires Ordered(desc, a) && Ordered(desc, b) && forall x :: x in a <==> x in b
    ensures a == b
  {
    assert forall i :: 0 <= i < |b| ==> b[i] in a;
    assert forall i :: 0 <= i < |a| ==> a[i] in b;
    if a != [] {
      assert a[0] in b && b[0] in a;
      assert a[0] == b[0];
      assert a == [a[0]] + a[1..] && b == [b[0]] + b[1..];
      OrderedTail(desc, a);
      OrderedTail(desc, b);
      OrderUnique(desc, a[1..], b[1..]);
    }
  }

  lemma OrderedTail(desc: bool, s: seq<Row>)
    requires s != [] && Ordered(desc, s)
    ensures Ordered(desc, s[1..]) && s[0] !in s[1..]
    ensures forall x :: x in s[1..] <==> x in s && x != s[0]
  {
    var rest := s[1..];
    assert forall i :: 0 <= i < |rest| ==> rest[i] == s[i + 1];
    assert s == [s[0]] + rest;
  }

  // ----- a limit pushed into every branch

  function Merge(desc: bool, x: seq<Row>, y: seq<Row>): seq<Row>
    decreases |x| + |y|
  {
    if x == [] then y
    else if y == [] then x
    else if Before(desc, y[0], x[0]) then [y[0]] + Merge(desc, x, y[1..])
    else [x[0]] + Merge(desc, x[1..], y)
  }

  lemma {:induction false} InsertMerge(desc: bool, r: Row, x: seq<Row>, y: seq<Row>)
    ensures Insert(desc, r, Merge(desc, x, y)) == Merge(desc, Insert(desc, r, x), y)
    decreases |x| + |y|
  {
    var m, rx := Merge(desc, x, y), Insert(desc, r, x);
    if x == [] {
      InsertIsMerge(desc, r, y);
      assert rx == [r] && m == y;
    } else if y != [] {
      assert ([r] + x)[1..] == x;
      if Before(desc, y[0], x[0]) {
        assert m[1..] == Merge(desc, x, y[1..]);
        if Before(desc, y[0], r) {
          InsertMerge(desc, r, x, y[1..]);
        }
      } else {
        assert m[1..] == Merge(desc, x[1..], y);
        if Before(desc, x[0], r) {
          InsertMerge(desc, r, x[1..], y);
          assert rx[1..] == Insert(desc, r, x[1..]);
        }
      }
    }
  }

  lemma {:induction false} InsertIsMerge(desc: bool, r: Row, y: seq<Row>)
    ensures Insert(desc, r, y) == Merge(desc, [r], y)
  {
    if y != [] && Before(desc, y[0], r) {
      InsertIsMerge(desc, r, y[1..]);
    }
  }

  lemma {:induction false} OrderByUnion(desc: bool, a: seq<Row>, b: seq<Row>)
    ensures OrderBy(desc, a + b) == Merge(desc, OrderBy(desc, a), OrderBy(desc, b))
  {
    if a == [] {
      assert a + b == b;
    } else {
      OrderByUnion(desc, a[1..], b);
      assert (a + b)[1..] == a[1..] + b;
      InsertMerge(desc, a[0], OrderBy(desc, a[1..]), OrderBy(desc, b));
    }
  }

  /** The first `k` of a merge come from the first `k` of each side. */
  lemma {:induction false} TakeMerge(desc: bool, x: seq<Row>, y: seq<Row>, k: nat)
    ensures Take(Merge(desc, x, y), k) == Take(Merge(desc, Take(x, k), Take(y, k)), k)
    decreases k, 1
  {
    var m, m' := Merge(desc, x, y), Merge(desc, Take(x, k), Take(y, k));
    if k == 0 {
      assert Take(m, k) == [] == Take(m', k);
    } else if x == [] || y == [] {
      assert Take(Take(m, k), k) == Take(m, k);
    } else if Before(desc, y[0], x[0]) {
      TakeStep(desc, x, y[1..], k);
      assert Take(y, k)[1..] == Take(y[1..], k - 1);
      TakeCons(y[0], Merge(desc, x, y[1..]), k);
      TakeCons(y[0], Merge(desc, Take(x, k), Take(y[1..], k - 1)), k);
    } else {
      TakeStep'(desc, x[1..], y, k);
      assert Take(x, k)[1..] == Take(x[1..], k - 1);
      TakeCons(x[0], Merge(desc, x[1..], y), k);
      TakeCons(x[0], Merge(desc, Take(x[1..], k - 1), Take(y, k)), k);
    }
  }

  lemma TakeCons(r: Row, s: seq<Row>, k: nat)
    requires k > 0
    ensures Take([r] + s, k) == [r] + Take(s, k - 1)
  {
  }

  lemma {:induction false} TakeStep(desc: bool, x: seq<Row>, y: seq<Row>, k: nat)
    requires k > 0
    ensures Take(Merge(desc, x, y), k - 1) == Take(Merge(desc, Take(x, k), Take(y, k - 1)), k - 1)
    decreases k, 0
  {
    TakeMerge(desc, x, y, k - 1);
    TakeMerge(desc, Take(x, k), Take(y, k - 1), k - 1);
    assert Take(Take(x, k), k - 1) == Take(x, k - 1);
    assert Take(Take(y, k - 1), k - 1) == Take(y, k - 1);
  }

  lemma {:induction false} TakeStep'(desc: bool, x: seq<Row>, y: seq<Row>, k: nat)
    requires k > 0
    ensures Take(Merge(desc, x, y), k - 1) == Take(Merge(desc, Take(x, k - 1), Take(y, k)), k - 1)
    decreases k, 0
  {
    TakeMerge(desc, x, y, k - 1);
    TakeMerge(desc, Take(x, k - 1), Take(y, k), k - 1);
    assert Take(Take(y, k), k - 1) == Take(y, k - 1);
    assert Take(Take(x, k - 1), k - 1) == Take(x, k - 1);
  }

  /** UNION ALL */
  function Concat(branches: seq<seq<Row>>): seq<Row> {
    if branches == [] then [] else branches[0] + Concat(branches[1..])
  }

  /** Each branch under its own ORDER BY id LIMIT k. */
  function Limited(desc: bool, branches: seq<seq<Row>>, k: nat): seq<seq<Row>> {
    if branches == [] then [] else [Take(OrderBy(desc, branches[0]), k)] + Limited(desc, branches[1..], k)
  }

  /** Ordering what is in order changes nothing. */
  lemma {:induction false} OrderByTwice(desc: bool, s: seq<Row>)
    requires Ordered(desc, s)
    ensures OrderBy(desc, s) == s
  {
    if s != [] {
      OrderedTail(desc, s);
      OrderByTwice(desc, s[1..]);
    }
  }

  lemma {:induction false} PushedLimit(desc: bool, branches: seq<seq<Row>>, k: nat)
    requires forall i :: 0 <= i < |branches| ==> DistinctIds(branches[i])
    ensures Take(OrderBy(desc, Concat(branches)), k) == Take(OrderBy(desc, Concat(Limited(desc, branches, k))), k)
  {
    if branches != [] {
      var b, rest := branches[0], branches[1..];
      var cut, more := Take(OrderBy(desc, b), k), Concat(Limited(desc, rest, k));
      PushedLimit(desc, rest, k);
      OrderByUnion(desc, b, Concat(rest));
      OrderByUnion(desc, cut, more);
      OrderByOrders(desc, b);
      OrderByTwice(desc, cut);
      assert Limited(desc, branches, k)[1..] == Limited(desc, rest, k);
      hide OrderBy, Merge, Concat, Limited, Ordered, DistinctIds;
      TakeMerge(desc, OrderBy(desc, b), OrderBy(desc, Concat(rest)), k);
      TakeMerge(desc, cut, OrderBy(desc, more), k);
      assert Take(cut, k) == cut;
    }
  }

  lemma PageOfTake(s: seq<Row>, lim: nat, ofst: nat)
    ensures Page(Take(s, lim + ofst), lim, ofst) == Page(s, lim, ofst)
  {
  }

  /** Cutting every branch to lim + ofst rows leaves the page as it is. */
  lemma PushedLimitKeepsPage(desc: bool, branches: seq<seq<Row>>, lim: nat, ofst: nat)
    requires forall i :: 0 <= i < |branches| ==> DistinctIds(branches[i])
    ensures Page(OrderBy(desc, Concat(Limited(desc, branches, lim + ofst))), lim, ofst)
         == Page(OrderBy(desc, Concat(branches)), lim, ofst)
  {
    hide OrderBy, Concat, Limited;
    PushedLimit(desc, branches, lim + ofst);
    PageOfTake(OrderBy(desc, Concat(branches)), lim, ofst);
    PageOfTake(OrderBy(desc, Concat(Limited(desc, branches, lim + ofst))), lim, ofst);
  }

  // ----- one branch for each type

  /** A branch joins the general table with the table of one type. */
  function OfType(rows: seq<Row>, ty: int): seq<Row> {
    if rows == [] then []
    else if rows[0].ty == ty then [rows[0]] + OfType(rows[1..], ty)
    else OfType(rows[1..], ty)
  }

  function Branches(rows: seq<Row>, tys: seq<int>): seq<seq<Row>> {
    if tys == [] then [] else [OfType(rows, tys[0])] + Branches(rows, tys[1..])
  }

  /** The rows whose type is among `tys`. */
  function OfTypes(rows: seq<Row>, tys: seq<int>): seq<Row> {
    if rows == [] then []
    else if rows[0].ty in tys then [rows[0]] + OfTypes(rows[1..], tys)
    else OfTypes(rows[1..], tys)
  }

  lemma {:induction false} OfTypeMembers(rows: seq<Row>, ty: int)
    ensures forall x :: x in OfType(rows, ty) <==> x in rows && x.ty == ty
    ensures DistinctIds(rows) ==> DistinctIds(OfType(rows, ty))
  {
    if rows != [] {
      OfTypeMembers(rows[1..], ty);
      assert rows == [rows[0]] + rows[1..];
      if DistinctIds(rows) {
        DistinctTail(rows);
      }
    }
  }

  lemma DistinctTail(rows: seq<Row>)
    requires rows != [] && DistinctIds(rows)
    ensures DistinctIds(rows[1..]) && forall x :: x in rows[1..] ==> x.id != rows[0].id
  {
    var rest := rows[1..];
    assert forall i :: 0 <= i < |rest| ==> rest[i] == rows[i + 1];
  }

  lemma IdsOfOne(rows: seq<Row>, x: Row, y: Row)
    requires DistinctIds(rows) && x in rows && y in rows && x.id == y.id
    ensures x == y
  {
  }

  lemma {:induction false} OfTypesMembers(rows: seq<Row>, tys: seq<int>)
    ensures forall x :: x in OfTypes(rows, tys) <==> x in rows && x.ty in tys
    ensures |OfTypes(rows, tys)| <= |rows|
  {
    if rows != [] {
      OfTypesMembers(rows[1..], tys);
      assert rows == [rows[0]] + rows[1..];
    }
  }

  lemma {:induction false} OfTypesOrdered(desc: bool, s: seq<Row>, tys: seq<int>)
    requires Ordered(desc, s)
    ensures Ordered(desc, OfTypes(s, tys))
  {
    if s != [] {
      OrderedTail(desc, s);
      OfTypesOrdered(desc, s[1..], tys);
      OfTypesMembers(s[1..], tys);
      assert forall x :: x in s[1..] ==> Before(desc, s[0], x);
    }
  }

  predicate NoRepeat(tys: seq<int>) {
    forall i, j :: 0 <= i < j < |tys| ==> tys[i] != tys[j]
  }

  lemma {:induction false} BranchesDistinct(rows: seq<Row>, tys: seq<int>)
    requires DistinctIds(rows)
    ensures forall i :: 0 <= i < |Branches(rows, tys)| ==> DistinctIds(Branches(rows, tys)[i])
  {
    if tys != [] {
      OfTypeMembers(rows, tys[0]);
      BranchesDistinct(rows, tys[1..]);
    }
  }

  /** The branches together hold the rows of their types, each once. */
  lemma {:induction false} UnionOfBranches(rows: seq<Row>, tys: seq<int>)
    requires DistinctIds(rows) && NoRepeat(tys)
    ensures forall x :: x in Concat(Branches(rows, tys)) <==> x in rows && x.ty in tys
    ensures DistinctIds(Concat(Branches(rows, tys)))
  {
    if tys != [] {
      var rest := tys[1..];
      assert NoRepeat(rest) && tys[0] !in rest && tys == [tys[0]] + rest;
      UnionOfBranches(rows, rest);
      OfTypeMembers(rows, tys[0]);
      var a, b := OfType(rows, tys[0]), Concat(Branches(rows, rest));
      assert Branches(rows, tys)[1..] == Branches(rows, rest);
      assert Concat(Branches(rows, tys)) == a + b;
      hide Concat, Branches, OfType;
      assert forall x, y :: x in a && y in b && x.id == y.id ==> x == y by {
        forall x, y | x in a && y in b && x.id == y.id
          ensures x == y
        {
          IdsOfOne(rows, x, y);
        }
      }
      DistinctUnion(a, b);
    }
  }

  lemma DistinctUnion(a: seq<Row>, b: seq<Row>)
    requires DistinctIds(a) && DistinctIds(b)
    requires forall x, y :: x in a && y in b ==> x.id != y.id
    ensures DistinctIds(a + b)
  {
    var s := a + b;
    forall i, j | 0 <= i < j < |s|
      ensures s[i].id != s[j].id
    {
      assert i < |a| ==> s[i] in a;
      assert j >= |a| ==> s[j] in b;
    }
  }

  /** So ordering the union is picking from the ordered table. */
  lemma UnionIsSelection(desc: bool, rows: seq<Row>, tys: seq<int>)
    requires DistinctIds(rows) && NoRepeat(tys)
    ensures OrderBy(desc, Concat(Branches(rows, tys))) == OfTypes(OrderBy(desc, rows), tys)
  {
    hide OrderBy, Concat, Branches, OfTypes, Ordered, DistinctIds;
    var union := Concat(Branches(rows, tys));
    UnionOfBranches(rows, tys);
    OrderByOrders(desc, union);
    OrderByOrders(desc, rows);
    OfTypesOrdered(desc, OrderBy(desc, rows), tys);
    OfTypesMembers(OrderBy(desc, rows), tys);
    OrderUnique(desc, OrderBy(desc, union), OfTypes(OrderBy(desc, rows), tys));
  }

  // ----- joining only the types seen on the first page

  predicate AllOfTypes(s: seq<Row>, tys: seq<int>) {
    forall x :: x in s ==> x.ty in tys
  }

  lemma {:induction false} OfTypesConcat(a: seq<Row>, b: seq<Row>, tys: seq<int>)
    ensures OfTypes(a + b, tys) == OfTypes(a, tys) + OfTypes(b, tys)
  {
    if a == [] {
      assert a + b == b;
    } else {
      OfTypesConcat(a[1..], b, tys);
      assert (a + b)[0] == a[0] && (a + b)[1..] == a[1..] + b;
    }
  }

  lemma {:induction false} OfTypesAll(s: seq<Row>, tys: seq<int>)
    ensures AllOfTypes(s, tys) ==> OfTypes(s, tys) == s
    ensures !AllOfTypes(s, tys) ==> |OfTypes(s, tys)| < |s|
  {
    if s != [] {
      OfTypesAll(s[1..], tys);
      OfTypesMembers(s[1..], tys);
      assert s == [s[0]] + s[1..];
    }
  }

  /** A page of a selection is the page of everything exactly when nothing up to its end is left out,
      or there is nothing on it. */
  lemma SelectionPage(desc: bool, s: seq<Row>, tys: seq<int>, lim: nat, ofst: nat)
    requires Ordered(desc, s) && Page(s, lim, ofst) != []
    ensures Page(OfTypes(s, tys), lim, ofst) == Page(s, lim, ofst) <==> AllOfTypes(Take(s, lim + ofst), tys)
  {
    var head, tail := Take(s, lim + ofst), s[|Take(s, lim + ofst)|..];
    assert s == head + tail;
    OfTypesConcat(head, tail, tys);
    OfTypesAll(head, tys);
    if AllOfTypes(head, tys) {
      FullPage(head, OfTypes(tail, tys), tail, lim, ofst);
    } else {
      ShiftedPage(desc, s, tys, lim, ofst);
    }
  }

  lemma FullPage(head: seq<Row>, a: seq<Row>, b: seq<Row>, lim: nat, ofst: nat)
    requires |head| >= lim + ofst || (a == [] && b == [])
    ensures Page(head + a, lim, ofst) == Page(head + b, lim, ofst)
  {
  }

  /** Some row before the end of the page is left out: either it is on the page, or all move up. */
  lemma ShiftedPage(desc: bool, s: seq<Row>, tys: seq<int>, lim: nat, ofst: nat)
    requires Ordered(desc, s) && Page(s, lim, ofst) != [] && !AllOfTypes(Take(s, lim + ofst), tys)
    ensures Page(OfTypes(s, tys), lim, ofst) != Page(s, lim, ofst)
  {
    if AllOfTypes(s[..ofst], tys) {
      RowMissing(s, tys, lim, ofst);
    } else {
      OfTypesAll(s[..ofst], tys);
      LaterRow(desc, s, tys, ofst);
      hide OfTypes, AllOfTypes, Ordered;
      assert Page(s, lim, ofst)[0] == s[ofst];
      assert Page(OfTypes(s, tys), lim, ofst) != [] ==> Page(OfTypes(s, tys), lim, ofst)[0] == OfTypes(s, tys)[ofst];
    }
  }

  lemma RowMissing(s: seq<Row>, tys: seq<int>, lim: nat, ofst: nat)
    requires ofst <= |s| && AllOfTypes(s[..ofst], tys) && !AllOfTypes(Take(s, lim + ofst), tys)
    ensures Page(OfTypes(s, tys), lim, ofst) != Page(s, lim, ofst)
  {
    OfTypesMembers(s, tys);
    hide OfTypes;
    var head, page := Take(s, lim + ofst), Page(s, lim, ofst);
    assert forall j :: 0 <= j < ofst ==> s[..ofst][j] == s[j];
    var i :| 0 <= i < |head| && head[i].ty !in tys;
    assert page[i - ofst] == head[i];
    assert forall x :: x in Page(OfTypes(s, tys), lim, ofst) ==> x in OfTypes(s, tys);
    assert head[i] in page;
  }

  /** What stands at place `ofst` of the selection came later in `s`. */
  lemma LaterRow(desc: bool, s: seq<Row>, tys: seq<int>, ofst: nat)
    requires Ordered(desc, s) && ofst < |s| && |OfTypes(s[..ofst], tys)| < ofst
    ensures ofst < |OfTypes(s, tys)| ==> OfTypes(s, tys)[ofst] != s[ofst]
  {
    var front, at, back := s[..ofst], s[ofst..ofst + 1], s[ofst + 1..];
    assert s == front + at + back && at == [s[ofst]];
    OfTypesConcat(front + at, back, tys);
    OfTypesConcat(front, at, tys);
    OfTypesMembers(at, tys);
    OfTypesMembers(back, tys);
    hide OfTypes;
    var sel := OfTypes(s, tys);
    if ofst < |sel| {
      var k := |OfTypes(front, tys)| + |OfTypes(at, tys)|;
      assert sel[ofst] == OfTypes(back, tys)[ofst - k];
      assert sel[ofst] in back;
      var i :| 0 <= i < |back| && back[i] == sel[ofst];
      assert s[ofst + 1 + i] == sel[ofst];
    }
  }

  // ----- the two queries

  /** As many types as the first query's answer is read for. */
  const MAX_TYPES := 64

  /** The types that get a branch: of the first 64 seen, those that have a table. */
  function Joinable(seen: seq<int>, tabled: set<int>): seq<int> {
    WithTable(if |seen| > MAX_TYPES then seen[..MAX_TYPES] else seen, tabled)
  }

  function WithTable(tys: seq<int>, tabled: set<int>): seq<int> {
    if tys == [] then []
    else (if tys[0] in tabled then [tys[0]] else []) + WithTable(tys[1..], tabled)
  }

  /** One branch of the second query: a type, and the LIMIT it is under. */
  datatype Branch = Branch(ty: int, limit: nat)

  /** The rows the database returns for the second query. */
  function Answer(desc: bool, rows: seq<Row>, query: seq<Branch>, lim: nat, ofst: nat): seq<Row> {
    Page(OrderBy(desc, Union(desc, rows, query)), lim, ofst)
  }

  function Union(desc: bool, rows: seq<Row>, query: seq<Branch>): seq<Row> {
    if query == [] then []
    else Take(OrderBy(desc, OfType(rows, query[0].ty)), query[0].limit) + Union(desc, rows, query[1..])
  }

  function Compiled(tys: seq<int>, k: nat): seq<Branch> {
    seq(|tys|, i requires 0 <= i < |tys| => Branch(tys[i], k))
  }

  lemma {:induction false} WithTableConcat(a: seq<int>, b: seq<int>, tabled: set<int>)
    ensures WithTable(a + b, tabled) == WithTable(a, tabled) + WithTable(b, tabled)
  {
    if a == [] {
      assert a + b == b;
    } else {
      var first, rest := (if a[0] in tabled then [a[0]] else []), a[1..];
      WithTableConcat(rest, b, tabled);
      assert (a + b)[0] == a[0] && (a + b)[1..] == rest + b;
      assert WithTable(a, tabled) == first + WithTable(rest, tabled);
      assert WithTable(a + b, tabled) == first + WithTable(rest + b, tabled);
      hide WithTable;
      assert first + (WithTable(rest, tabled) + WithTable(b, tabled)) ==
             first + WithTable(rest, tabled) + WithTable(b, tabled);
    }
  }

  lemma {:induction false} WithBoth(tys: seq<int>, needed: set<int>, tabled: set<int>)
    ensures WithTable(WithTable(tys, needed), tabled) == WithTable(tys, needed * tabled)
  {
    if tys != [] {
      WithBoth(tys[1..], needed, tabled);
      var first := if tys[0] in needed then [tys[0]] else [];
      WithTableConcat(first, WithTable(tys[1..], needed), tabled);
    }
  }

  /** db_get_descendants reads the types of the first query and builds the second.  With criteria on the
      columns of types, only the types those need are joined. */
  method SecondQuery(seen: seq<int>, hasResFc: bool, needed: set<int>, tabled: set<int>, lim: nat, ofst: nat)
    returns (query: seq<Branch>)
    ensures query == Compiled(Joinable(seen, if hasResFc then needed * tabled else tabled), lim + ofst)
  {
    hide WithTable, Compiled;
    var joinTys := ReadTypes(seen);
    if hasResFc {
      WithBoth(joinTys, needed, tabled);
      joinTys := OnlyNeeded(joinTys, needed);
    }
    query := JoinBranches(joinTys, tabled, lim + ofst);
  }

  /** The loop over the rows of the first query's answer. */
  method ReadTypes(seen: seq<int>) returns (tyVals: seq<int>)
    ensures tyVals == if |seen| > 64 then seen[..64] else seen
  {
    tyVals := [];
    var i := 0;
    while i < |seen| && |tyVals| < MAX_TYPES
      invariant 0 <= i <= |seen| && i <= MAX_TYPES && tyVals == seen[..i]
    {
      tyVals := tyVals + [seen[i]];
      i := i + 1;
    }
    assert seen[..|seen|] == seen;
  }

  /** The loop that writes the branches, passing over types without a table. */
  method JoinBranches(joinTys: seq<int>, tabled: set<int>, k: nat) returns (query: seq<Branch>)
    ensures query == Compiled(WithTable(joinTys, tabled), k)
  {
    query := [];
    var j := 0;
    while j < |joinTys|
      invariant 0 <= j <= |joinTys| && query == Compiled(WithTable(joinTys[..j], tabled), k)
    {
      assert joinTys[..j + 1] == joinTys[..j] + [joinTys[j]];
      WithTableConcat(joinTys[..j], [joinTys[j]], tabled);
      if joinTys[j] in tabled {
        query := query + [Branch(joinTys[j], k)];
      }
      j := j + 1;
    }
    assert joinTys[..j] == joinTys;
  }

  /** The loop with fc_needs_ty. */
  method OnlyNeeded(tyVals: seq<int>, needed: set<int>) returns (joinTys: seq<int>)
    ensures joinTys == WithTable(tyVals, needed)
  {
    joinTys := [];
    var i := 0;
    while i < |tyVals|
      invariant 0 <= i <= |tyVals| && joinTys == WithTable(tyVals[..i], needed)
    {
      assert tyVals[..i + 1] == tyVals[..i] + [tyVals[i]];
      WithTableConcat(tyVals[..i], [tyVals[i]], needed);
      if tyVals[i] in needed {
        joinTys := joinTys + [tyVals[i]];
      }
      i := i + 1;
    }
    assert tyVals[..i] == tyVals;
  }

  lemma {:induction false} CompiledUnion(desc: bool, rows: seq<Row>, tys: seq<int>, k: nat)
    ensures Union(desc, rows, Compiled(tys, k)) == Concat(Limited(desc, Branches(rows, tys), k))
  {
    if tys != [] {
      assert Compiled(tys, k)[1..] == Compiled(tys[1..], k);
      CompiledUnion(desc, rows, tys[1..], k);
      assert Branches(rows, tys)[1..] == Branches(rows, tys[1..]);
      var lim := Limited(desc, Branches(rows, tys), k);
      assert lim[1..] == Limited(desc, Branches(rows, tys[1..]), k);
    }
  }

  /** The second query answers with the page of the rows whose types it joins. */
  lemma AnswerIsPage(desc: bool, rows: seq<Row>, tys: seq<int>, lim: nat, ofst: nat)
    requires DistinctIds(rows) && NoRepeat(tys)
    ensures Answer(desc, rows, Compiled(tys, lim + ofst), lim, ofst) ==
            Page(OfTypes(OrderBy(desc, rows), tys), lim, ofst)
  {
    hide OrderBy, Concat, Limited, Branches, OfTypes, Union, Compiled, Page;
    CompiledUnion(desc, rows, tys, lim + ofst);
    BranchesDistinct(rows, tys);
    PushedLimitKeepsPage(desc, Branches(rows, tys), lim, ofst);
    UnionIsSelection(desc, rows, tys);
  }

  lemma {:induction false} WithTableMembers(tys: seq<int>, tabled: set<int>)
    ensures forall t :: t in WithTable(tys, tabled) <==> t in tys && t in tabled
    ensures NoRepeat(tys) ==> NoRepeat(WithTable(tys, tabled))
  {
    if tys != [] {
      WithTableMembers(tys[1..], tabled);
      assert tys == [tys[0]] + tys[1..];
      assert NoRepeat(tys) ==> NoRepeat(tys[1..]) && tys[0] !in tys[1..];
    }
  }

  /** `seen` is what SELECT DISTINCT ty gives for the rows. */
  predicate TypesOf(seen: seq<int>, rows: seq<Row>) {
    && NoRepeat(seen)
    && (forall x :: x in rows ==> x.ty in seen)
    && (forall t :: t in seen ==> exists x :: x in rows && x.ty == t)
  }

  /** The page that was asked for. */
  function Wanted(desc: bool, rows: seq<Row>, lim: nat, ofst: nat): seq<Row> {
    Page(OrderBy(desc, rows), lim, ofst)
  }

  /** Joining only the types seen on the page gives that page exactly when it is empty, or every row
      up to its end, the skipped ones included, has a type that is joined. */
  lemma PageOfSeenTypes(desc: bool, rows: seq<Row>, seen: seq<int>, tabled: set<int>, lim: nat, ofst: nat)
    requires DistinctIds(rows) && TypesOf(seen, Wanted(desc, rows, lim, ofst))
    ensures var join, page := Joinable(seen, tabled), Wanted(desc, rows, lim, ofst);
            Answer(desc, rows, Compiled(join, lim + ofst), lim, ofst) == page <==>
            page == [] || AllOfTypes(Take(OrderBy(desc, rows), lim + ofst), join)
  {
    var tys, s := Joinable(seen, tabled), OrderBy(desc, rows);
    WithTableMembers(if |seen| > MAX_TYPES then seen[..MAX_TYPES] else seen, tabled);
    OrderByOrders(desc, rows);
    hide OrderBy, Union, Compiled, Page, WithTable, AllOfTypes, Ordered, DistinctIds, Answer;
    AnswerIsPage(desc, rows, tys, lim, ofst);
    if Wanted(desc, rows, lim, ofst) != [] {
      SelectionPage(desc, s, tys, lim, ofst);
    } else {
      assert seen == [] by {
        assert forall i :: 0 <= i < |seen| ==> seen[i] in seen;
      }
      NoTypes(s);
      EmptyPage(lim, ofst);
      assert tys == [] by {
        NoneJoinable(tabled);
      }
    }
  }

  lemma NoneJoinable(tabled: set<int>)
    ensures Joinable([], tabled) == []
  {
  }

  lemma {:induction false} NoTypes(s: seq<Row>)
    ensures OfTypes(s, []) == []
  {
    if s != [] {
      NoTypes(s[1..]);
    }
  }

  lemma EmptyPage(lim: nat, ofst: nat)
    ensures Page([], lim, ofst) == []
  {
  }

  /** From the start of the list the page is always right, if its types have tables. */
  lemma FirstPageRight(desc: bool, rows: seq<Row>, seen: seq<int>, tabled: set<int>, lim: nat)
    requires DistinctIds(rows) && TypesOf(seen, Wanted(desc, rows, lim, 0))
    requires |seen| <= 64 && forall t :: t in seen ==> t in tabled
    ensures Answer(desc, rows, Compiled(Joinable(seen, tabled), lim), lim, 0) == Wanted(desc, rows, lim, 0)
  {
    WithTableMembers(seen, tabled);
    hide OrderBy, Union, Compiled, WithTable, DistinctIds, Answer;
    PageOfSeenTypes(desc, rows, seen, tabled, lim, 0);
    var s := OrderBy(desc, rows);
    assert Wanted(desc, rows, lim, 0) == Take(s, lim) by {
      assert s != [] ==> s[0..] == s;
    }
  }

  /** With an offset it need not be: an AE skipped, a container wanted, and nothing is returned. */
  lemma SkippedTypeLosesPage(lim: nat)
    requires lim > 0
    ensures var rows, tabled := [Row(1, 2), Row(2, 3)], {2, 3};
            && DistinctIds(rows) && Wanted(false, rows, lim, 1) == [Row(2, 3)] && TypesOf([3], [Row(2, 3)])
            && Answer(false, rows, Compiled(Joinable([3], tabled), lim + 1), lim, 1) == []
  {
    var rows, tabled := [Row(1, 2), Row(2, 3)], {2, 3};
    var s := OrderBy(false, rows);
    OrderByTwice(false, rows);
    assert WithTable([3], tabled) == [3];
    assert Row(2, 3) in [Row(2, 3)];
    AnswerIsPage(false, rows, [3], lim, 1);
    assert rows[1..] == [Row(2, 3)] && rows[1..][1..] == [];
    assert OfTypes(rows, [3]) == [Row(2, 3)];
  }

  // ----- criteria on the columns of types

  lemma {:induction false} OfTypesDistinct(rows: seq<Row>, tys: seq<int>)
    requires DistinctIds(rows)
    ensures DistinctIds(OfTypes(rows, tys))
  {
    if rows != [] {
      DistinctTail(rows);
      OfTypesDistinct(rows[1..], tys);
      OfTypesMembers(rows[1..], tys);
    }
  }

  /** Picking types before ordering or after is the same. */
  lemma OrderOfTypes(desc: bool, rows: seq<Row>, tys: seq<int>)
    requires DistinctIds(rows)
    ensures OrderBy(desc, OfTypes(rows, tys)) == OfTypes(OrderBy(desc, rows), tys)
    ensures Ordered(desc, OrderBy(desc, OfTypes(rows, tys)))
  {
    OfTypesDistinct(rows, tys);
    OfTypesMembers(rows, tys);
    OfTypesMembers(OrderBy(desc, rows), tys);
    OrderByOrders(desc, rows);
    OrderByOrders(desc, OfTypes(rows, tys));
    OfTypesOrdered(desc, OrderBy(desc, rows), tys);
    hide OrderBy, OfTypes, Ordered, DistinctIds;
    OrderUnique(desc, OrderBy(desc, OfTypes(rows, tys)), OfTypes(OrderBy(desc, rows), tys));
  }

  lemma {:induction false} OfFewerTypes(s: seq<Row>, tys: seq<int>, fewer: seq<int>)
    requires forall t :: t in fewer ==> t in tys
    ensures OfTypes(OfTypes(s, tys), fewer) == OfTypes(s, fewer)
  {
    if s != [] {
      OfFewerTypes(s[1..], tys, fewer);
      if s[0].ty in tys {
        assert OfTypes(s, tys)[1..] == OfTypes(s[1..], tys);
      }
    }
  }

  lemma EmptyStays(s: seq<Row>, tys: seq<int>, lim: nat, ofst: nat)
    requires Page(s, lim, ofst) == []
    ensures Page(OfTypes(s, tys), lim, ofst) == []
  {
    OfTypesMembers(s, tys);
    hide OfTypes;
    assert lim == 0 || ofst >= |s| by {
      assert ofst < |s| && lim > 0 ==> |Page(s, lim, ofst)| > 0;
    }
  }

  /** With such criteria the first query sees the types of all rows.  `met` are the rows that meet the
      criteria, and of these the ones of a needed type are asked for.  The page is right exactly when
      it is empty or every row up to its end has a type that is joined. */
  lemma PageOfNeededTypes(desc: bool, met: seq<Row>, seen: seq<int>, needed: seq<int>, tabled: set<int>, lim: nat,
                          ofst: nat)
    requires DistinctIds(met) && NoRepeat(seen)
    ensures var join := Joinable(seen, (set t | t in needed) * tabled);
            var all := OfTypes(met, needed);
            Answer(desc, met, Compiled(join, lim + ofst), lim, ofst) == Wanted(desc, all, lim, ofst) <==>
            Wanted(desc, all, lim, ofst) == [] || AllOfTypes(Take(OrderBy(desc, all), lim + ofst), join)
  {
    var both := (set t | t in needed) * tabled;
    var join := Joinable(seen, both);
    WithTableMembers(if |seen| > MAX_TYPES then seen[..MAX_TYPES] else seen, both);
    hide OrderBy, Union, Compiled, Page, WithTable, AllOfTypes, Ordered, DistinctIds, Answer, OfTypes;
    var s := OrderBy(desc, OfTypes(met, needed));
    AnswerIsPage(desc, met, join, lim, ofst);
    OrderOfTypes(desc, met, needed);
    OfFewerTypes(OrderBy(desc, met), needed, join);
    if Page(s, lim, ofst) != [] {
      SelectionPage(desc, s, join, lim, ofst);
    } else {
      EmptyStays(s, join, lim, ofst);
    }
  }

  /** So no page loses a row of a needed type, at any offset, while at most 64 types occur and the needed
      ones have tables. */
  lemma NeededTypesRight(desc: bool, rows: seq<Row>, met: seq<Row>, seen: seq<int>, needed: seq<int>, tabled: set<int>,
                         lim: nat, ofst: nat)
    requires DistinctIds(met) && TypesOf(seen, rows) && |seen| <= 64
    requires (forall x :: x in met ==> x in rows) && forall t :: t in needed ==> t in tabled
    ensures Answer(desc, met, Compiled(Joinable(seen, (set t | t in needed) * tabled), lim + ofst), lim, ofst)
         == Wanted(desc, OfTypes(met, needed), lim, ofst)
  {
    var both := (set t | t in needed) * tabled;
    var all := OfTypes(met, needed);
    WithTableMembers(seen, both);
    OfTypesMembers(met, needed);
    OrderByOrders(desc, all);
    hide OrderBy, Union, Compiled, WithTable, Ordered, DistinctIds, Answer, OfTypes, Wanted;
    PageOfNeededTypes(desc, met, seen, needed, tabled, lim, ofst);
    assert forall x :: x in Take(OrderBy(desc, all), lim + ofst) ==> x in OrderBy(desc, all);
  }
}
