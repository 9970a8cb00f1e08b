/** The values cJSON parses and prints, and the byte text it prints for them.

    A child list is a chain of siblings in cJSON (child, next, next, ...), so arrays and
    objects hold chains here too.  Numbers are exact reals: rounding is not modelled. */
module JsonValue {

  type Byte = b: int | 0 <= b < 256
  type Bytes = seq<Byte>

  /** What a C string can hold: any bytes but the terminator. */
  type CString = s: Bytes | 0 !in s

  datatype Value =
    | Null
    | False
    | True
    | Number(d: real)
    | String(s: CString)
    | Array(items: Items)
    | Object(members: Members)

  datatype Items = NoItems | Item(head: Value, rest: Items)
  datatype Members = NoMembers | Member(key: CString, value: Value, more: Members)

  const QUOTE: Byte := 34
  const BACKSLASH: Byte := 92
  const COMMA: Byte := 44
  const COLON: Byte := 58
  const MINUS: Byte := 45
  const LBRACKET: Byte := 91
  const RBRACKET: Byte := 93
  const LBRACE: Byte := 123
  const RBRACE: Byte := 125
  const TAB: Byte := 9
  const NEWLINE: Byte := 10
  const SPACE: Byte := 32

  const NULL_TEXT: Bytes := [110, 117, 108, 108]
  const FALSE_TEXT: Bytes := [102, 97, 108, 115, 101]
  const TRUE_TEXT: Bytes := [116, 114, 117, 101]

  const INT_MAX := 0x7FFF_FFFF
  const INT_MIN := -0x8000_0000

  /** The numbers print_number renders with "%d": d equals its own valueint. */
  predicate IsInt32(d: real) {
    d == d.Floor as real && INT_MIN <= d.Floor <= INT_MAX
  }

  /** Every number in the tree is an int32. */
  predicate IntOnly(v: Value) {
    match v
    case Number(d) => IsInt32(d)
    case Array(items) => IntOnlyItems(items)
    case Object(members) => IntOnlyMembers(members)
    case _ => true
  }

  predicate IntOnlyItems(items: Items) {
    items.Item? ==> IntOnly(items.head) && IntOnlyItems(items.rest)
  }

  predicate IntOnlyMembers(members: Members) {
    members.Member? ==> IntOnly(members.value) && IntOnlyMembers(members.more)
  }

  function Max(a: nat, b: nat): nat {
    if a < b then b else a
  }

  /** How many arrays and objects are open at the deepest point. */
  function Nesting(v: Value): nat {
    match v
    case Array(items) => 1 + NestingItems(items)
    case Object(members) => 1 + NestingMembers(members)
    case _ => 0
  }

  function NestingItems(items: Items): nat {
    match items
    case NoItems => 0
    case Item(head, rest) => Max(Nesting(head), NestingItems(rest))
  }

  function NestingMembers(members: Members): nat {
    match members
    case NoMembers => 0
    case Member(_, value, more) => Max(Nesting(value), NestingMembers(more))
  }

  /** `t` stands in `c` at position `i`. */
  ghost predicate At(c: Bytes, i: nat, t: Bytes) {
    i + |t| <= |c| && c[i..i + |t|] == t
  }

  lemma AtParts(c: Bytes, i: nat, a: Bytes, b: Bytes)
    ensures At(c, i, a + b) <==> At(c, i, a) && At(c, i + |a|, b)
  {
    if At(c, i, a + b) {
      assert a == (a + b)[..|a|] == c[i..i + |a|];
      assert b == (a + b)[|a|..] == c[i + |a|..i + |a| + |b|];
    }
    if At(c, i, a) && At(c, i + |a|, b) {
      assert c[i..i + |a| + |b|] == c[i..i + |a|] + c[i + |a|..i + |a| + |b|];
    }
  }

  lemma AtByte(c: Bytes, i: nat, t: Bytes, k: nat)
    requires At(c, i, t) && k < |t|
    ensures i + |t| <= |c| && c[i + k] == t[k]
  {
    assert c[i..i + |t|][k] == t[k];
  }
}
