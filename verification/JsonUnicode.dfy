/** UTF-16 escapes and UTF-8 bytes: section 2.2 of RFC 2781 and section 3 of RFC 3629. */
module JsonUnicode {
  import opened JsonValue

  predicate IsHex(b: Byte) {
    48 <= b <= 57 || 65 <= b <= 70 || 97 <= b <= 102
  }

  function HexValue(b: Byte): (n: nat)
    requires IsHex(b)
    ensures n < 16
  {
    if b <= 57 then b - 48 else if b <= 70 then b - 55 else b - 87
  }

  /** The number four hex digits spell; a malformed quadruple counts as 0. */
  function Hex4(c: Bytes, i: nat): (n: nat)
    requires i + 4 <= |c|
    ensures n < 0x10000
  {
    if IsHex(c[i]) && IsHex(c[i + 1]) && IsHex(c[i + 2]) && IsHex(c[i + 3]) then
      HexValue(c[i]) * 4096 + HexValue(c[i + 1]) * 256 + HexValue(c[i + 2]) * 16 + HexValue(c[i + 3])
    else 0
  }

  predicate IsHigh(code: nat) {
    0xD800 <= code <= 0xDBFF
  }

  predicate IsLow(code: nat) {
    0xDC00 <= code <= 0xDFFF
  }

  /** A Unicode scalar value. */
  predicate IsScalar(cp: nat) {
    cp < 0xD800 || 0xE000 <= cp <= 0x10FFFF
  }

  /** The code point a surrogate pair stands for. */
  function Joined(high: nat, low: nat): (cp: nat)
    requires IsHigh(high) && IsLow(low)
    ensures 0x10000 <= cp <= 0x10FFFF
  {
    0x10000 + (high - 0xD800) * 1024 + (low - 0xDC00)
  }

  /** The UTF-8 encoding of a code point. */
  function Utf8(cp: nat): (bytes: Bytes)
    requires cp <= 0x10FFFF
    ensures 1 <= |bytes| <= 4
  {
    if cp < 0x80 then [cp]
    else if cp < 0x800 then [0xC0 + cp / 64, 0x80 + cp % 64]
    else if cp < 0x10000 then [0xE0 + cp / 4096, 0x80 + cp / 64 % 64, 0x80 + cp % 64]
    else [0xF0 + cp / 262144, 0x80 + cp / 4096 % 64, 0x80 + cp / 64 % 64, 0x80 + cp % 64]
  }

  /** A decoder read off the byte layouts of RFC 3629: the first byte gives the length. */
  function Utf8Decode(bytes: Bytes): int
    requires 1 <= |bytes| <= 4
  {
    var b: seq<int> := bytes;
    if |b| == 1 then b[0]
    else if |b| == 2 then b[0] % 32 * 64 + b[1] % 64
    else if |b| == 3 then b[0] % 16 * 4096 + b[1] % 64 * 64 + b[2] % 64
    else b[0] % 8 * 262144 + b[1] % 64 * 4096 + b[2] % 64 * 64 + b[3] % 64
  }

  /** The length the first byte of an encoding announces. */
  function LeadLength(lead: Byte): nat {
    if lead < 0x80 then 1 else if lead < 0xE0 then 2 else if lead < 0xF0 then 3 else 4
  }

  /** Splitting off the low six bits, then the next six, loses nothing. */
  lemma SixBitGroups(cp: nat)
    ensures cp == cp / 64 * 64 + cp % 64
    ensures cp == cp / 4096 * 4096 + cp / 64 % 64 * 64 + cp % 64
    ensures cp == cp / 262144 * 262144 + cp / 4096 % 64 * 4096 + cp / 64 % 64 * 64 + cp % 64
  {
    assert cp / 4096 == cp / 64 / 64;
    assert cp / 262144 == cp / 4096 / 64;
  }

  lemma DecodeGroups(a: nat, b: nat, c: nat, d: nat)
    requires b < 64 && c < 64 && d < 64
    ensures a < 32 ==> Utf8Decode([0xC0 + a, 0x80 + b]) == a * 64 + b
    ensures a < 16 ==> Utf8Decode([0xE0 + a, 0x80 + b, 0x80 + c]) == a * 4096 + b * 64 + c
    ensures a < 8 ==> Utf8Decode([0xF0 + a, 0x80 + b, 0x80 + c, 0x80 + d]) == a * 262144 + b * 4096 + c * 64 + d
  {
  }

  /** Encoding is lossless. */
  lemma Utf8RoundTrip(cp: nat)
    requires cp <= 0x10FFFF
    ensures Utf8Decode(Utf8(cp)) == cp
  {
    SixBitGroups(cp);
    if 0x80 <= cp {
      hide Utf8Decode;
      if cp < 0x800 {
        DecodeGroups(cp / 64, cp % 64, 0, 0);
      } else if cp < 0x10000 {
        DecodeGroups(cp / 4096, cp / 64 % 64, cp % 64, 0);
      } else {
        DecodeGroups(cp / 262144, cp / 4096 % 64, cp / 64 % 64, cp % 64);
      }
    }
  }

  /** An encoding is in the shortest form, self-delimiting, with no stray lead byte, and holds
      the NUL byte only for U+0000. */
  lemma Utf8Shape(cp: nat)
    requires cp <= 0x10FFFF
    ensures |Utf8(cp)| == LeadLength(Utf8(cp)[0])
    ensures forall k :: 1 <= k < |Utf8(cp)| ==> 0x80 <= Utf8(cp)[k] < 0xC0
    ensures 0 in Utf8(cp) <==> cp == 0
  {
  }

  /** The two \u codes section 2.2 of RFC 2781 gives a code point above the basic plane. */
  lemma SurrogatesJoin(cp: nat)
    requires 0x10000 <= cp <= 0x10FFFF
    ensures IsHigh(0xD800 + (cp - 0x10000) / 1024) && IsLow(0xDC00 + (cp - 0x10000) % 1024)
    ensures Joined(0xD800 + (cp - 0x10000) / 1024, 0xDC00 + (cp - 0x10000) % 1024) == cp
  {
  }

  // ----- the bit operators of C, on numbers that fit their type

  /** a & b */
  function BitAnd(a: nat, b: nat): nat {
    if a == 0 || b == 0 then 0 else 2 * BitAnd(a / 2, b / 2) + (if a % 2 == 1 && b % 2 == 1 then 1 else 0)
  }

  /** a | b */
  function BitOr(a: nat, b: nat): nat {
    if a == 0 then b else if b == 0 then a
    else 2 * BitOr(a / 2, b / 2) + (if a % 2 == 1 || b % 2 == 1 then 1 else 0)
  }

  function Pow2(k: nat): (n: nat)
    ensures n > 0
  {
    if k == 0 then 1 else 2 * Pow2(k - 1)
  }

  /** a << k */
  function Shl(a: nat, k: nat): nat {
    Pow2(k) * a
  }

  /** a >> k */
  function Shr(a: nat, k: nat): nat {
    if k == 0 then a else Shr(a / 2, k - 1)
  }

  lemma ShrSix(a: nat)
    ensures Shr(a, 6) == a / 64
  {
    var b, c, d, e, f := a / 2, a / 4, a / 8, a / 16, a / 32;
    assert Shr(a / 64, 0) == a / 64;
    assert Shr(f, 1) == a / 64;
    assert Shr(e, 2) == Shr(f, 1);
    assert Shr(d, 3) == Shr(e, 2);
    assert Shr(c, 4) == Shr(d, 3);
    assert Shr(b, 5) == Shr(c, 4);
  }

  lemma Powers()
    ensures Pow2(4) == 16 && Pow2(5) == 32 && Pow2(6) == 64 && Pow2(7) == 128 && Pow2(8) == 256 && Pow2(10) == 1024
  {
    assert Pow2(2) == 4 && Pow2(9) == 2 * Pow2(8);
  }

  predicate IsBit(i: nat) {
    i == 0 || i == 1
  }

  lemma AndTwo(a: nat, b: nat, i: nat, j: nat)
    requires IsBit(i) && IsBit(j)
    ensures BitAnd(2 * a + i, 2 * b + j) == 2 * BitAnd(a, b) + (if i == 1 && j == 1 then 1 else 0)
  {
  }

  lemma OrTwo(a: nat, b: nat, i: nat, j: nat)
    requires IsBit(i) && IsBit(j)
    ensures BitOr(2 * a + i, 2 * b + j) == 2 * BitOr(a, b) + (if i == 1 || j == 1 then 1 else 0)
  {
  }

  /** High and low bits are masked apart. */
  lemma {:induction false} AndSplit(k: nat, a: nat, x: nat, b: nat, y: nat)
    requires x < Pow2(k) && y < Pow2(k)
    ensures BitAnd(Shl(a, k) + x, Shl(b, k) + y) == Shl(BitAnd(a, b), k) + BitAnd(x, y)
  {
    if k > 0 {
      AndSplit(k - 1, a, x / 2, b, y / 2);
      hide BitAnd;
      Doubled(a, k);
      Doubled(b, k);
      Doubled(BitAnd(a, b), k);
      hide Shl;
      AndTwo(Shl(a, k - 1) + x / 2, Shl(b, k - 1) + y / 2, x % 2, y % 2);
      AndTwo(x / 2, y / 2, x % 2, y % 2);
    }
  }

  /** And united apart. */
  lemma {:induction false} OrSplit(k: nat, a: nat, x: nat, b: nat, y: nat)
    requires x < Pow2(k) && y < Pow2(k)
    ensures BitOr(Shl(a, k) + x, Shl(b, k) + y) == Shl(BitOr(a, b), k) + BitOr(x, y)
  {
    if k > 0 {
      OrSplit(k - 1, a, x / 2, b, y / 2);
      hide BitOr;
      Doubled(a, k);
      Doubled(b, k);
      Doubled(BitOr(a, b), k);
      hide Shl;
      OrTwo(Shl(a, k - 1) + x / 2, Shl(b, k - 1) + y / 2, x % 2, y % 2);
      OrTwo(x / 2, y / 2, x % 2, y % 2);
    }
  }

  lemma Doubled(a: nat, k: nat)
    requires k > 0
    ensures Shl(a, k) == 2 * Shl(a, k - 1)
  {
  }

  /** A mask of ones keeps what it covers. */
  lemma {:induction false} AllOnes(k: nat, x: nat)
    requires x < Pow2(k)
    ensures BitAnd(x, Pow2(k) - 1) == x
  {
    if k > 0 {
      AllOnes(k - 1, x / 2);
      hide BitAnd;
      AndTwo(x / 2, Pow2(k - 1) - 1, x % 2, 1);
    }
  }

  /** The continuation byte. */
  lemma ContinuationByte(cp: nat)
    ensures BitAnd(BitOr(cp, 0x80), 0xBF) == 0x80 + cp % 64
  {
    var h, l := cp / 64, cp % 64;
    assert BitOr(l, 0) == l;
    SecondBit(h);
    hide BitAnd, BitOr;
    Powers();
    OrSplit(6, h, l, 2, 0);
    AndSplit(6, BitOr(h, 2), l, 2, 63);
    AllOnes(6, l);
  }

  lemma SecondBit(h: nat)
    ensures BitAnd(BitOr(h, 2), 2) == 2
  {
    hide BitAnd, BitOr;
    var q, i, j := h / 4, h / 2 % 2, h % 2;
    OrNothing(q);
    AndNothing(q);
    OrTwo(2 * q + i, 1, j, 0);
    OrTwo(q, 0, i, 1);
    AndTwo(2 * q + 1, 1, j, 0);
    AndTwo(q, 0, 1, 1);
  }

  lemma AndNothing(a: nat)
    ensures BitAnd(a, 0) == 0
  {
  }

  /** The first byte of each length. */
  lemma LeadByte(cp: nat, mark: nat)
    requires (mark == 0xC0 && cp < 0x20) || (mark == 0xE0 && cp < 0x10) || (mark == 0xF0 && cp < 0x08)
    ensures BitAnd(BitOr(cp, mark), 0xFF) == mark + cp
  {
    hide BitAnd, BitOr;
    OrNothing(cp);
    Powers();
    if mark == 0xF0 {
      OrNothing(15);
      OrSplit(4, 0, cp, 15, 0);
    } else if mark == 0xE0 {
      OrNothing(7);
      OrSplit(5, 0, cp, 7, 0);
    } else {
      OrNothing(3);
      OrSplit(6, 0, cp, 3, 0);
    }
    AllOnes(8, mark + cp);
  }

  lemma OrNothing(a: nat)
    ensures BitOr(0, a) == a == BitOr(a, 0)
  {
  }

  lemma AsciiByte(cp: nat)
    requires cp < 0x80
    ensures BitAnd(cp, 0x7F) == cp
  {
    hide BitAnd;
    Powers();
    AllOnes(7, cp);
  }

  /** Ten low bits. */
  lemma LowTen(a: nat)
    ensures BitAnd(a, 0x3FF) == a % 1024
  {
    hide BitAnd;
    AndNothing(a / 1024);
    Powers();
    AndSplit(10, a / 1024, a % 1024, 0, 1023);
    AllOnes(10, a % 1024);
  }

  /** The union of the low bits of a surrogate pair is the code point it stands for. */
  lemma PairBits(high: nat, low: nat)
    requires IsHigh(high) && IsLow(low)
    ensures 0x10000 + BitOr(Shl(BitAnd(high, 0x3FF), 10), BitAnd(low, 0x3FF)) == Joined(high, low)
  {
    hide BitAnd, BitOr;
    var x, y := high - 0xD800, low - 0xDC00;
    LowTen(high);
    LowTen(low);
    assert high % 1024 == x && low % 1024 == y;
    OrNothing(x);
    OrNothing(y);
    JoinTen(x, y);
  }

  lemma JoinTen(x: nat, y: nat)
    requires y < 1024
    ensures BitOr(Shl(x, 10), y) == 1024 * x + y
  {
    hide BitOr;
    OrNothing(x);
    OrNothing(y);
    Powers();
    OrSplit(10, x, 0, 0, y);
  }

  /** How many input bytes a \u literal uses and what it writes; length 0 is the failure return. */
  datatype Literal = Literal(length: nat, bytes: Bytes)

  const BAD_LITERAL := Literal(0, [])

  /** utf16_literal_to_utf8 at a backslash-u found at `i`, with the literal closing at `end`. */
  function Utf16Literal(c: Bytes, i: nat, end: nat): (r: Literal)
    requires i <= end <= |c|
    ensures r.length > 0 ==> i + r.length <= end && 1 <= |r.bytes| <= 4
    ensures r.length == 0 ==> r == BAD_LITERAL
  {
    if end - i < 6 then BAD_LITERAL
    else
      var first := Hex4(c, i + 2);
      if IsLow(first) then BAD_LITERAL
      else if !IsHigh(first) then Literal(6, Utf8(first))
      else if end - (i + 6) < 6 || c[i + 6] != BACKSLASH || c[i + 7] != 117 then BAD_LITERAL
      else
        var second := Hex4(c, i + 8);
        if !IsLow(second) then BAD_LITERAL else Literal(12, Utf8(Joined(first, second)))
  }
}
