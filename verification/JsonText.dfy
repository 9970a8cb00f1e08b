/** The text cJSON prints, as a function of the value alone. */
module JsonText {
  import opened JsonValue

  /** "%d" of a non-negative number. */
  function Digits(n: nat): (t: Bytes)
    ensures |t| >= 1 && forall k :: 0 <= k < |t| ==> 48 <= t[k] <= 57
  {
    if n < 10 then [48 + n] else Digits(n / 10) + [48 + n % 10]
  }

  function IntText(n: int): Bytes {
    if n < 0 then [MINUS] + Digits(-n) else Digits(n)
  }

  function HexDigit(n: nat): Byte
    requires n < 16
  {
    if n < 10 then 48 + n else 87 + n
  }

  /** The letter after the backslash for a byte with a two-byte escape, or 0. */
  function ShortEscape(b: Byte): Byte {
    if b == QUOTE || b == BACKSLASH then b
    else if b == 8 then 98
    else if b == 12 then 102
    else if b == 10 then 110
    else if b == 13 then 114
    else if b == 9 then 116
    else 0
  }

  /** One string byte as it appears between the quotes. */
  function EscapedByte(b: Byte): Bytes {
    if ShortEscape(b) != 0 then [BACKSLASH, ShortEscape(b)]
    else if b < 32 then [BACKSLASH, 117, 48, 48, HexDigit(b / 16), HexDigit(b % 16)]
    else [b]
  }

  function EscapedText(s: Bytes): Bytes {
    if s == [] then [] else EscapedByte(s[0]) + EscapedText(s[1..])
  }

  function StringText(s: Bytes): Bytes {
    [QUOTE] + EscapedText(s) + [QUOTE]
  }

  function Tabs(n: nat): Bytes {
    seq(n, _ => TAB)
  }

  /** The layout bytes that only a formatted print emits. */
  function Layout(fmt: bool, t: Bytes): Bytes {
    if fmt then t else []
  }

  /** The text of `v` when `depth` containers are already open around it. */
  function ValueText(v: Value, fmt: bool, depth: nat): Bytes
    requires IntOnly(v)
    decreases v, 1
  {
    match v
    case Null => NULL_TEXT
    case False => FALSE_TEXT
    case True => TRUE_TEXT
    case Number(d) => IntText(d.Floor)
    case String(s) => StringText(s)
    case Array(items) => [LBRACKET] + (ItemsText(items, fmt, depth + 1) + [RBRACKET])
    case Object(members) =>
      [LBRACE] + (Layout(fmt, [NEWLINE]) + (MembersText(members, fmt, depth + 1) + ClosingText(fmt, depth)))
  }

  function ClosingText(fmt: bool, depth: nat): Bytes {
    Layout(fmt, Tabs(depth)) + [RBRACE]
  }

  function ItemsText(items: Items, fmt: bool, depth: nat): Bytes
    requires IntOnlyItems(items)
    decreases items, 2
  {
    match items
    case NoItems => []
    case Item(head, rest) => ValueText(head, fmt, depth) + AfterItem(rest, fmt, depth)
  }

  function AfterItem(rest: Items, fmt: bool, depth: nat): Bytes
    requires IntOnlyItems(rest)
    decreases rest, 3
  {
    if rest.NoItems? then [] else [COMMA] + (Layout(fmt, [SPACE]) + ItemsText(rest, fmt, depth))
  }

  function MembersText(members: Members, fmt: bool, depth: nat): Bytes
    requires IntOnlyMembers(members)
    decreases members, 2
  {
    match members
    case NoMembers => []
    case Member(key, value, more) =>
      Layout(fmt, Tabs(depth)) + (StringText(key) + ([COLON] +
      (Layout(fmt, [TAB]) + (ValueText(value, fmt, depth) + AfterMember(more, fmt, depth)))))
  }

  function AfterMember(more: Members, fmt: bool, depth: nat): Bytes
    requires IntOnlyMembers(more)
    decreases more, 3
  {
    (if more.NoMembers? then [] else [COMMA]) + (Layout(fmt, [NEWLINE]) + MembersText(more, fmt, depth))
  }
}
