/** cJSON_Compare, on a tree and itself and on trees that share no nodes. */
module JsonCompare {
  import opened JsonValue

  /** DBL_EPSILON */
  const EPSILON: real := 1.0 / 4503599627370496.0

  function Abs(x: real): real {
    if x < 0.0 then -x else x
  }

  predicate CloseNumbers(a: real, b: real) {
    Abs(a - b) <= (if Abs(a) > Abs(b) then Abs(a) else Abs(b)) * EPSILON
  }

  lemma CloseIntsAreEqual(a: real, b: real)
    requires IsInt32(a) && IsInt32(b)
    ensures CloseNumbers(a, b) <==> a == b
  {
    var m := if Abs(a) > Abs(b) then Abs(a) else Abs(b);
    assert 0.0 <= m <= 2147483648.0;
    assert m * EPSILON < 1.0 && 0.0 <= m * EPSILON;
    if CloseNumbers(a, b) {
      assert Abs(a - b) < 1.0;
      assert (a.Floor - b.Floor) as real == a - b;
    }
  }

  // ----- looking up a member

  function LowerByte(b: Byte): Byte {
    if 65 <= b <= 90 then b + 32 else b
  }

  predicate SameKey(cs: bool, a: CString, b: CString) {
    if cs then a == b else |a| == |b| && forall i :: 0 <= i < |a| ==> LowerByte(a[i]) == LowerByte(b[i])
  }

  /** The same letter in two cases. */
  predicate CasesOf(upper: Byte, lower: Byte) {
    'A' as int <= upper <= 'Z' as int && lower - 'a' as int == upper - 'A' as int
  }

  /** Without regard to case, two keys are the same exactly if they differ only between A to Z and a to z. */
  lemma SameKeyMeans(a: CString, b: CString)
    ensures SameKey(true, a, b) <==> a == b
    ensures SameKey(false, a, b) <==>
            |a| == |b| && forall i :: 0 <= i < |a| ==> a[i] == b[i] || CasesOf(a[i], b[i]) || CasesOf(b[i], a[i])
  {
    if |a| == |b| {
      forall i | 0 <= i < |a|
        ensures LowerByte(a[i]) == LowerByte(b[i]) <==> a[i] == b[i] || CasesOf(a[i], b[i]) || CasesOf(b[i], a[i])
      {
      }
    }
  }

  /** The key a comparison goes by. */
  function KeyOf(cs: bool, k: CString): CString {
    if cs then k else Lowered(k)
  }

  function Lowered(k: CString): (r: CString)
    ensures |r| == |k| && forall i :: 0 <= i < |k| ==> r[i] == LowerByte(k[i])
  {
    if k == [] then [] else [LowerByte(k[0])] + Lowered(k[1..])
  }

  lemma KeysAgree(cs: bool, a: CString, b: CString)
    ensures SameKey(cs, a, b) <==> KeyOf(cs, a) == KeyOf(cs, b)
  {
    if !cs && SameKey(cs, a, b) {
      assert Lowered(a) == Lowered(b);
    }
    if !cs && Lowered(a) == Lowered(b) {
      assert forall i :: 0 <= i < |a| ==> Lowered(a)[i] == Lowered(b)[i];
    }
  }

  datatype Found = Missing | Found(value: Value)

  /** The first member with the key. */
  function Lookup(cs: bool, ms: Members, key: CString): (f: Found)
    ensures f.Found? ==> f.value < ms && Weight(f.value) < MembersWeight(ms)
  {
    match ms
    case NoMembers => Missing
    case Member(k, v, more) => if SameKey(cs, key, k) then Found(v) else Lookup(cs, more, key)
  }

  /** get_object_item */
  method GetObjectItem(ms: Members, name: CString, cs: bool) returns (f: Found)
    ensures f == Lookup(cs, ms, name)
  {
    var current := ms;
    while current.Member? && !SameKey(cs, name, current.key)
      invariant Lookup(cs, current, name) == Lookup(cs, ms, name)
      decreases current
    {
      current := current.more;
    }
    f := if current.Member? then Found(current.value) else Missing;
  }

  // ----- comparing

  function Weight(v: Value): nat {
    match v
    case Array(items) => 1 + ItemsWeight(items)
    case Object(members) => 1 + MembersWeight(members)
    case _ => 1
  }

  function ItemsWeight(items: Items): nat {
    match items case NoItems => 0 case Item(h, t) => 1 + Weight(h) + ItemsWeight(t)
  }

  function MembersWeight(ms: Members): nat {
    match ms case NoMembers => 0 case Member(_, v, t) => 1 + Weight(v) + MembersWeight(t)
  }

  predicate Equal(a: Value, b: Value, cs: bool)
    decreases Weight(a) + Weight(b), 1
  {
    match (a, b)
    case (Null, Null) => true
    case (False, False) => true
    case (True, True) => true
    case (Number(x), Number(y)) => CloseNumbers(x, y)
    case (String(s), String(t)) => s == t
    case (Array(xs), Array(ys)) => EqualItems(xs, ys, cs)
    case (Object(ms), Object(ns)) => AllIn(ms, ns, cs) && AllIn(ns, ms, cs)
    case _ => false
  }

  predicate EqualItems(xs: Items, ys: Items, cs: bool)
    decreases ItemsWeight(xs) + ItemsWeight(ys), 0
  {
    match (xs, ys)
    case (NoItems, NoItems) => true
    case (Item(x, xr), Item(y, yr)) => Equal(x, y, cs) && EqualItems(xr, yr, cs)
    case _ => false
  }

  /** Every member of `ms` equals the first member of `ns` with its key. */
  predicate AllIn(ms: Members, ns: Members, cs: bool)
    decreases MembersWeight(ms) + MembersWeight(ns), 0
  {
    match ms
    case NoMembers => true
    case Member(k, v, more) =>
      var f := Lookup(cs, ns, k);
      f.Found? && Equal(v, f.value, cs) && AllIn(more, ns, cs)
  }

  /** cJSON_Compare.  `identical` says that both pointers are the same, which settles it. */
  method Compare(a: Value, b: Value, cs: bool, identical: bool) returns (r: bool)
    requires identical ==> a == b
    ensures r == (identical || Equal(a, b, cs))
    decreases Weight(a) + Weight(b), 1
  {
    if identical {
      return true;
    }
    if a.Number? && b.Number? {
      return CloseNumbers(a.d, b.d);
    } else if a.String? && b.String? {
      return a.s == b.s;
    } else if a.Array? && b.Array? {
      var x, y := a.items, b.items;
      while x.Item? && y.Item?
        invariant EqualItems(x, y, cs) == EqualItems(a.items, b.items, cs)
        invariant ItemsWeight(x) <= ItemsWeight(a.items) && ItemsWeight(y) <= ItemsWeight(b.items)
        decreases x
      {
        var same := Compare(x.head, y.head, cs, false);
        if !same {
          return false;
        }
        x, y := x.rest, y.rest;
      }
      return x.NoItems? && y.NoItems?;
    } else if a.Object? && b.Object? {
      r := CompareMembers(a.members, b.members, cs);
      if !r {
        return;
      }
      r := CompareMembers(b.members, a.members, cs);
    } else {
      return (a.Null? && b.Null?) || (a.False? && b.False?) || (a.True? && b.True?);
    }
  }

  /** One of the two loops over the members of an object. */
  method CompareMembers(ms: Members, ns: Members, cs: bool) returns (r: bool)
    ensures r == AllIn(ms, ns, cs)
    decreases MembersWeight(ms) + MembersWeight(ns), 0
  {
    var m := ms;
    while m.Member?
      invariant AllIn(m, ns, cs) == AllIn(ms, ns, cs) && MembersWeight(m) <= MembersWeight(ms)
      decreases m
    {
      var f := GetObjectItem(ns, m.key, cs);
      if f.Missing? {
        return false;
      }
      var same := Compare(m.value, f.value, cs, false);
      if !same {
        return false;
      }
      m := m.more;
    }
    return true;
  }

  /** Comparing is symmetric, on all trees and in both modes. */
  lemma {:induction false} EqualSymmetric(a: Value, b: Value, cs: bool)
    ensures Equal(a, b, cs) == Equal(b, a, cs)
    decreases Weight(a) + Weight(b)
  {
    if a.Array? && b.Array? {
      ItemsSymmetric(a.items, b.items, cs);
    }
  }

  lemma {:induction false} ItemsSymmetric(xs: Items, ys: Items, cs: bool)
    ensures EqualItems(xs, ys, cs) == EqualItems(ys, xs, cs)
    decreases ItemsWeight(xs) + ItemsWeight(ys)
  {
    if xs.Item? && ys.Item? {
      EqualSymmetric(xs.head, ys.head, cs);
      ItemsSymmetric(xs.rest, ys.rest, cs);
    }
  }

  // ----- what is compared

  /** A value with its objects as maps, from keys as the comparison sees them. */
  datatype Meaning =
    | NullOf | FalseOf | TrueOf | NumberOf(d: real) | StringOf(s: CString)
    | ArrayOf(items: seq<Meaning>) | ObjectOf(members: map<CString, Meaning>)

  /** A repeated key means its first value. */
  function Means(v: Value, cs: bool): Meaning {
    match v
    case Null => NullOf
    case False => FalseOf
    case True => TrueOf
    case Number(d) => NumberOf(d)
    case String(s) => StringOf(s)
    case Array(items) => ArrayOf(ItemsMean(items, cs))
    case Object(ms) => ObjectOf(MembersMean(ms, cs))
  }

  function ItemsMean(items: Items, cs: bool): seq<Meaning> {
    match items case NoItems => [] case Item(h, t) => [Means(h, cs)] + ItemsMean(t, cs)
  }

  function MembersMean(ms: Members, cs: bool): map<CString, Meaning> {
    match ms case NoMembers => map[] case Member(k, v, more) => MembersMean(more, cs)[KeyOf(cs, k) := Means(v, cs)]
  }

  /** Members that repeat a key, at any depth, repeat its value too. */
  predicate Coherent(v: Value, cs: bool) {
    match v
    case Array(items) => CoherentItems(items, cs)
    case Object(ms) => CoherentMembers(ms, MembersMean(ms, cs), cs)
    case _ => true
  }

  predicate CoherentItems(items: Items, cs: bool) {
    match items case NoItems => true case Item(h, t) => Coherent(h, cs) && CoherentItems(t, cs)
  }

  /** The member's value is the one its key has in `all`. */
  predicate Fits(k: CString, v: Value, all: map<CString, Meaning>, cs: bool) {
    KeyOf(cs, k) in all && all[KeyOf(cs, k)] == Means(v, cs)
  }

  predicate CoherentMembers(ms: Members, all: map<CString, Meaning>, cs: bool) {
    match ms
    case NoMembers => true
    case Member(k, v, more) => Coherent(v, cs) && Fits(k, v, all, cs) && CoherentMembers(more, all, cs)
  }

  lemma {:induction false} LookupMeans(ms: Members, key: CString, cs: bool)
    ensures var f, all, k := Lookup(cs, ms, key), MembersMean(ms, cs), KeyOf(cs, key);
            (f.Found? <==> k in all) && (f.Found? ==> all[k] == Means(f.value, cs))
  {
    hide KeyOf, SameKey;
    if ms.Member? {
      KeysAgree(cs, key, ms.key);
      LookupMeans(ms.more, key, cs);
    }
  }

  lemma {:induction false} LookupIntOnly(ms: Members, key: CString, cs: bool)
    requires IntOnlyMembers(ms)
    ensures Lookup(cs, ms, key).Found? ==> IntOnly(Lookup(cs, ms, key).value)
  {
    hide SameKey;
    if ms.Member? {
      LookupIntOnly(ms.more, key, cs);
    }
  }

  lemma {:induction false} CoherentLookup(ms: Members, key: CString, all: map<CString, Meaning>, cs: bool)
    requires CoherentMembers(ms, all, cs)
    ensures Lookup(cs, ms, key).Found? ==> Coherent(Lookup(cs, ms, key).value, cs)
  {
    hide SameKey;
    if ms.Member? {
      CoherentLookup(ms.more, key, all, cs);
    }
  }

  /** On trees of integers, comparing is being equal as values with unordered objects, for trees whose
      repeated keys repeat their values; a tree with other repeated keys equals no other tree. */
  lemma {:induction false} EqualIsMeaning(a: Value, b: Value, cs: bool)
    requires IntOnly(a) && IntOnly(b)
    ensures Equal(a, b, cs) <==> Coherent(a, cs) && Coherent(b, cs) && Means(a, cs) == Means(b, cs)
    decreases Weight(a) + Weight(b), 1
  {
    if a.Number? && b.Number? {
      CloseIntsAreEqual(a.d, b.d);
    } else if a.Array? && b.Array? {
      EqualItemsMean(a.items, b.items, cs);
    } else if a.Object? && b.Object? {
      ObjectsMean(a.members, b.members, cs);
    }
  }

  lemma {:induction false} EqualItemsMean(xs: Items, ys: Items, cs: bool)
    requires IntOnlyItems(xs) && IntOnlyItems(ys)
    ensures EqualItems(xs, ys, cs) <==>
            CoherentItems(xs, cs) && CoherentItems(ys, cs) && ItemsMean(xs, cs) == ItemsMean(ys, cs)
    decreases ItemsWeight(xs) + ItemsWeight(ys), 0
  {
    if xs.Item? && ys.Item? {
      EqualIsMeaning(xs.head, ys.head, cs);
      EqualItemsMean(xs.rest, ys.rest, cs);
      assert ItemsMean(xs, cs)[0] == Means(xs.head, cs) && ItemsMean(xs, cs)[1..] == ItemsMean(xs.rest, cs);
      assert ItemsMean(ys, cs)[0] == Means(ys.head, cs) && ItemsMean(ys, cs)[1..] == ItemsMean(ys.rest, cs);
    }
  }

  /** The members in `ms` are in `ns`: coherent with it, and nothing it does not have. */
  predicate Agrees(ms: Members, ns: Members, all: map<CString, Meaning>, cs: bool) {
    match ms
    case NoMembers => true
    case Member(k, v, more) =>
      var f := Lookup(cs, ns, k);
      Coherent(v, cs) && Fits(k, v, all, cs) && (f.Found? ==> Coherent(f.value, cs)) && Agrees(more, ns, all, cs)
  }

  lemma {:induction false} AllInMeans(ms: Members, ns: Members, cs: bool)
    requires IntOnlyMembers(ms) && IntOnlyMembers(ns)
    ensures AllIn(ms, ns, cs) <==> Agrees(ms, ns, MembersMean(ns, cs), cs)
    decreases MembersWeight(ms) + MembersWeight(ns), 0
  {
    hide KeyOf, SameKey;
    if ms.Member? {
      LookupMeans(ns, ms.key, cs);
      LookupIntOnly(ns, ms.key, cs);
      var f := Lookup(cs, ns, ms.key);
      if f.Found? {
        EqualIsMeaning(ms.value, f.value, cs);
      }
      AllInMeans(ms.more, ns, cs);
    }
  }

  lemma {:induction false} AgreesKeys(ms: Members, ns: Members, all: map<CString, Meaning>, cs: bool)
    requires Agrees(ms, ns, all, cs)
    ensures forall k :: k in MembersMean(ms, cs) ==> k in all && all[k] == MembersMean(ms, cs)[k]
    ensures CoherentMembers(ms, all, cs)
  {
    hide KeyOf, SameKey;
    if ms.Member? {
      AgreesKeys(ms.more, ns, all, cs);
    }
  }

  lemma {:induction false} CoherentAgrees(ms: Members, ns: Members, all: map<CString, Meaning>,
                                          other: map<CString, Meaning>, cs: bool)
    requires CoherentMembers(ms, all, cs) && CoherentMembers(ns, other, cs)
    ensures Agrees(ms, ns, all, cs)
  {
    hide KeyOf, SameKey;
    if ms.Member? {
      CoherentLookup(ns, ms.key, other, cs);
      CoherentAgrees(ms.more, ns, all, other, cs);
    }
  }

  lemma {:induction false} ObjectsMean(ms: Members, ns: Members, cs: bool)
    requires IntOnlyMembers(ms) && IntOnlyMembers(ns)
    ensures var m, n := MembersMean(ms, cs), MembersMean(ns, cs);
            AllIn(ms, ns, cs) && AllIn(ns, ms, cs) <==>
            CoherentMembers(ms, m, cs) && CoherentMembers(ns, n, cs) && m == n
    decreases MembersWeight(ms) + MembersWeight(ns), 1
  {
    AllInMeans(ms, ns, cs);
    AllInMeans(ns, ms, cs);
    var m, n := MembersMean(ms, cs), MembersMean(ns, cs);
    if Agrees(ms, ns, n, cs) && Agrees(ns, ms, m, cs) {
      AgreesKeys(ms, ns, n, cs);
      AgreesKeys(ns, ms, m, cs);
      assert m == n;
    }
    if CoherentMembers(ms, m, cs) && CoherentMembers(ns, n, cs) && m == n {
      CoherentAgrees(ms, ns, m, n, cs);
      CoherentAgrees(ns, ms, n, m, cs);
    }
  }

  /** So comparing is transitive. */
  lemma EqualTransitive(a: Value, b: Value, c: Value, cs: bool)
    requires IntOnly(a) && IntOnly(b) && IntOnly(c) && Equal(a, b, cs) && Equal(b, c, cs)
    ensures Equal(a, c, cs)
  {
    EqualIsMeaning(a, b, cs);
    EqualIsMeaning(b, c, cs);
    EqualIsMeaning(a, c, cs);
  }

  /** A tree compares equal to a copy of it, which has the same contents in other nodes, if and only if keys
      that the comparison does not tell apart have the same value.  To itself it always does: see Compare. */
  lemma EqualToCopy(v: Value, cs: bool)
    requires IntOnly(v)
    ensures Equal(v, v, cs) <==> Coherent(v, cs)
  {
    EqualIsMeaning(v, v, cs);
  }

  // ----- distinct keys

  predicate DistinctKeys(v: Value, cs: bool) {
    match v
    case Array(items) => DistinctKeysItems(items, cs)
    case Object(ms) => DistinctKeysMembers(ms, cs)
    case _ => true
  }

  predicate DistinctKeysItems(items: Items, cs: bool) {
    match items case NoItems => true case Item(h, t) => DistinctKeys(h, cs) && DistinctKeysItems(t, cs)
  }

  predicate DistinctKeysMembers(ms: Members, cs: bool) {
    match ms
    case NoMembers => true
    case Member(k, v, more) =>
      DistinctKeys(v, cs) && KeyOf(cs, k) !in MembersMean(more, cs) && DistinctKeysMembers(more, cs)
  }

  /** Trees without repeated keys are coherent. */
  lemma {:induction false} DistinctIsCoherent(v: Value, cs: bool)
    requires DistinctKeys(v, cs)
    ensures Coherent(v, cs)
  {
    match v
    case Array(items) => DistinctItemsCoherent(items, cs);
    case Object(ms) => DistinctMembersCoherent(ms, MembersMean(ms, cs), cs);
    case _ =>
  }

  lemma {:induction false} DistinctItemsCoherent(items: Items, cs: bool)
    requires DistinctKeysItems(items, cs)
    ensures CoherentItems(items, cs)
  {
    if items.Item? {
      DistinctIsCoherent(items.head, cs);
      DistinctItemsCoherent(items.rest, cs);
    }
  }

  lemma {:induction false} DistinctMembersCoherent(ms: Members, all: map<CString, Meaning>, cs: bool)
    requires DistinctKeysMembers(ms, cs)
    requires forall k :: k in MembersMean(ms, cs) ==> k in all && all[k] == MembersMean(ms, cs)[k]
    ensures CoherentMembers(ms, all, cs)
  {
    hide KeyOf;
    if ms.Member? {
      DistinctIsCoherent(ms.value, cs);
      DistinctMembersCoherent(ms.more, all, cs);
    }
  }

  /** A tree with two values under keys that are not told apart is not equal to its own copy: one key twice,
      or without regard to case two spellings of it. */
  lemma RepeatedKeyDiffers(k: CString, k': CString, cs: bool)
    requires KeyOf(cs, k) == KeyOf(cs, k')
    ensures var v := Object(Member(k, Null, Member(k', True, NoMembers))); !Equal(v, v, cs) && !Coherent(v, cs)
  {
    var more := Member(k', True, NoMembers);
    var ms := Member(k, Null, more);
    KeysAgree(cs, k', k);
    hide KeyOf, SameKey;
    assert Lookup(cs, ms, k') == Found(Null);
    assert !AllIn(more, ms, cs);
    assert IntOnlyMembers(NoMembers);
    assert IntOnlyMembers(more) && IntOnlyMembers(ms);
    EqualIsMeaning(Object(ms), Object(ms), cs);
  }

  /** Keys that are distinct and differ only in case, such as "a" and "A". */
  lemma CaseDiffers(a: CString, b: CString)
    requires a != b && SameKey(false, a, b)
    ensures var v := Object(Member(a, Null, Member(b, True, NoMembers))); DistinctKeys(v, true) && !Equal(v, v, false)
  {
    hide SameKey;
    KeysAgree(false, a, b);
    RepeatedKeyDiffers(a, b, false);
    var more := Member(b, True, NoMembers);
    assert MembersMean(NoMembers, true) == map[];
    assert MembersMean(more, true).Keys == {b};
    assert DistinctKeysMembers(NoMembers, true);
    assert DistinctKeysMembers(more, true);
    assert DistinctKeys(Null, true) && DistinctKeys(True, true);
    hide Equal;
  }
}
