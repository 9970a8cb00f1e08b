/** What cJSON_Parse accepts and returns, as functions of the text, an offset and the nesting depth. */
module JsonGrammar {
  import opened JsonValue
  import opened JsonLiteral

  const NESTING_LIMIT: nat := 1000

  // ----- numbers

  predicate IsDigit(b: Byte) {
    48 <= b <= 57
  }

  /** The bytes parse_number copies: digits, signs, exponent letters and the point. */
  predicate IsNumberByte(b: Byte) {
    IsDigit(b) || b == 43 || b == 45 || b == 46 || b == 69 || b == 101
  }

  /** The position after the number bytes at `i`, at most `room` of them. */
  function NumberEnd(c: Bytes, i: nat, room: nat): (end: nat)
    requires i <= |c|
    ensures i <= end <= |c| && end <= i + room
    decreases room
  {
    if room == 0 || i == |c| || !IsNumberByte(c[i]) then i else NumberEnd(c, i + 1, room - 1)
  }

  function DigitsEnd(s: Bytes, i: nat): (end: nat)
    requires i <= |s|
    ensures i <= end <= |s|
    decreases |s| - i
  {
    if i == |s| || !IsDigit(s[i]) then i else DigitsEnd(s, i + 1)
  }

  /** The decimal number a run of digits spells. */
  function DigitsValue(s: Bytes): nat
    requires forall k :: 0 <= k < |s| ==> IsDigit(s[k])
  {
    if s == [] then 0 else
    var last := |s| - 1;
    assert IsDigit(s[last]);
    DigitsValue(s[..last]) * 10 + (s[last] - 48)
  }

  lemma {:induction false} DigitsEndAreDigits(s: Bytes, i: nat)
    requires i <= |s|
    ensures forall k :: i <= k < DigitsEnd(s, i) ==> IsDigit(s[k])
    decreases |s| - i
  {
    if i < |s| && IsDigit(s[i]) {
      DigitsEndAreDigits(s, i + 1);
    }
  }

  function Run(s: Bytes, i: nat): nat
    requires i <= |s|
  {
    DigitsEndAreDigits(s, i);
    DigitsValue(s[i..DigitsEnd(s, i)])
  }

  function PowerOfTen(n: nat): (p: real)
    ensures p > 0.0
  {
    if n == 0 then 1.0 else 10.0 * PowerOfTen(n - 1)
  }

  function Scaled(d: real, negative: bool, exponent: nat): real {
    if negative then d / PowerOfTen(exponent) else d * PowerOfTen(exponent)
  }

  /** A sign, digits and a point: the number they spell and where they end (0 if there are none). */
  function Mantissa(s: Bytes): (r: (real, nat))
    ensures r.1 <= |s|
  {
    var start := if s != [] && (s[0] == 43 || s[0] == MINUS) then 1 else 0;
    var whole := DigitsEnd(s, start);
    var point := whole < |s| && s[whole] == 46;
    var end := if point then DigitsEnd(s, whole + 1) else whole;
    if whole == start && end <= whole + 1 then (0.0, 0)
    else
      var integer := Run(s, start) as real;
      var fraction := if point then Run(s, whole + 1) as real / PowerOfTen(end - whole - 1) else 0.0;
      (if s[0] == MINUS then -(integer + fraction) else integer + fraction, end)
  }

  /** strtod on text made of number bytes: its exact value and how many bytes it uses (0 if none). */
  function Strtod(s: Bytes): (r: (real, nat))
    ensures r.1 <= |s|
  {
    var (d, m) := Mantissa(s);
    var signed := m + 1 < |s| && (s[m + 1] == 43 || s[m + 1] == MINUS);
    var digits := m + 1 + (if signed then 1 else 0);
    if 0 < m < |s| && (s[m] == 69 || s[m] == 101) && DigitsEnd(s, digits) > digits then
      (Scaled(d, s[m + 1] == MINUS, Run(s, digits)), DigitsEnd(s, digits))
    else (d, m)
  }

  /** parse_number: at most 63 number bytes go to strtod. */
  function ParseNumber(c: Bytes, off: nat): (r: Parsed<Value>)
    requires off <= |c|
    ensures r.Ok? ==> off < r.next <= |c|
  {
    var (d, used) := Strtod(c[off..NumberEnd(c, off, 63)]);
    if used == 0 then Fail else Ok(Number(d), off + used)
  }

  // ----- white space

  function BlankEnd(c: Bytes, i: nat): (end: nat)
    requires i <= |c|
    ensures i <= end <= |c|
    decreases |c| - i
  {
    if i == |c| || c[i] > 32 then i else BlankEnd(c, i + 1)
  }

  /** buffer_skip_whitespace: the terminating NUL counts as blank, and the last byte is never left. */
  function SkipBlanks(c: Bytes, off: nat): (next: nat)
    ensures off <= next && (off < |c| ==> next < |c|)
  {
    if off >= |c| then off
    else if BlankEnd(c, off) == |c| then |c| - 1
    else BlankEnd(c, off)
  }

  // ----- values

  predicate ByteAt(c: Bytes, off: nat, b: Byte) {
    off < |c| && c[off] == b
  }

  /** parse_value at `off`, inside `depth` open containers. */
  function ParseValue(c: Bytes, off: nat, depth: nat): (r: Parsed<Value>)
    ensures r.Ok? ==> off < r.next <= |c|
    decreases |c| - off, 2
  {
    if off + 4 <= |c| && c[off..off + 4] == NULL_TEXT then Ok(Null, off + 4)
    else if off + 5 <= |c| && c[off..off + 5] == FALSE_TEXT then Ok(False, off + 5)
    else if off + 4 <= |c| && c[off..off + 4] == TRUE_TEXT then Ok(True, off + 4)
    else if off >= |c| then Fail
    else if c[off] == QUOTE then
      match ParseString(c, off)
      case Fail => Fail
      case Ok(s, next) => Ok(String(s), next)
    else if c[off] == MINUS || IsDigit(c[off]) then ParseNumber(c, off)
    else if c[off] == LBRACKET then ParseArray(c, off, depth)
    else if c[off] == LBRACE then ParseObject(c, off, depth)
    else Fail
  }

  /** parse_array at a '['. */
  function ParseArray(c: Bytes, off: nat, depth: nat): (r: Parsed<Value>)
    requires off < |c|
    ensures r.Ok? ==> off < r.next <= |c|
    decreases |c| - off, 1
  {
    var first := SkipBlanks(c, off + 1);
    if depth >= NESTING_LIMIT || first >= |c| then Fail
    else if c[first] == RBRACKET then Ok(Array(NoItems), first + 1)
    else match ParseItems(c, off + 1, depth + 1)
      case Fail => Fail
      case Ok(items, next) => Ok(Array(items), next)
  }

  /** One element and what follows it, up to and over the ']'. */
  function ParseItems(c: Bytes, off: nat, depth: nat): (r: Parsed<Items>)
    ensures r.Ok? ==> off < r.next <= |c|
    decreases |c| - off, 3
  {
    match ParseValue(c, SkipBlanks(c, off), depth)
    case Fail => Fail
    case Ok(v, next) =>
      var p := SkipBlanks(c, next);
      if ByteAt(c, p, COMMA) then
        match ParseItems(c, p + 1, depth)
        case Fail => Fail
        case Ok(rest, end) => Ok(Item(v, rest), end)
      else if ByteAt(c, p, RBRACKET) then Ok(Item(v, NoItems), p + 1)
      else Fail
  }

  /** parse_object at a '{'. */
  function ParseObject(c: Bytes, off: nat, depth: nat): (r: Parsed<Value>)
    requires off < |c|
    ensures r.Ok? ==> off < r.next <= |c|
    decreases |c| - off, 1
  {
    var first := SkipBlanks(c, off + 1);
    if depth >= NESTING_LIMIT || first >= |c| then Fail
    else if c[first] == RBRACE then Ok(Object(NoMembers), first + 1)
    else match ParseMembers(c, off + 1, depth + 1)
      case Fail => Fail
      case Ok(members, next) => Ok(Object(members), next)
  }

  /** One name-value pair and what follows it, up to and over the '}'. */
  function ParseMembers(c: Bytes, off: nat, depth: nat): (r: Parsed<Members>)
    ensures r.Ok? ==> off < r.next <= |c|
    decreases |c| - off, 3
  {
    match ParseString(c, SkipBlanks(c, off))
    case Fail => Fail
    case Ok(key, afterKey) =>
      var colon := SkipBlanks(c, afterKey);
      if !ByteAt(c, colon, COLON) then Fail
      else
        match ParseValue(c, SkipBlanks(c, colon + 1), depth)
        case Fail => Fail
        case Ok(v, next) =>
          var p := SkipBlanks(c, next);
          if ByteAt(c, p, COMMA) then
            match ParseMembers(c, p + 1, depth)
            case Fail => Fail
            case Ok(more, end) => Ok(Member(key, v, more), end)
          else if ByteAt(c, p, RBRACE) then Ok(Member(key, v, NoMembers), p + 1)
          else Fail
  }

  const BOM: Bytes := [0xEF, 0xBB, 0xBF]

  /** Where parsing starts: after a byte order mark, if the text opens with one. */
  function AfterBom(c: Bytes): nat {
    if |c| > 4 && c[..3] == BOM then 3 else 0
  }

  /** cJSON_Parse on a C string: the value, and the offset where the text after it begins. */
  function ParseDocument(text: CString): Parsed<Value> {
    var c := text + [0];
    ParseValue(c, SkipBlanks(c, AfterBom(c)), 0)
  }

  /** cJSON_ParseWithOpts with require_null_terminated: only blanks may follow the value. */
  function ParseWholeDocument(text: CString): Parsed<Value> {
    var r := ParseDocument(text);
    if r.Ok? && !ByteAt(text + [0], SkipBlanks(text + [0], r.next), 0) then Fail else r
  }
}
