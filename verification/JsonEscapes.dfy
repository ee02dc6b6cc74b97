/**
 The rewriting of JSON escapes the YAML parser does not accept: `\/`, and surrogate pairs
 (RFC 8259 section 7, RFC 2781 section 2.2), the latter into UTF-8 (RFC 3629 section 3).
 */
module JsonEscapes {
  import opened Common

  type byte = x: int | 0 <= x < 256

  const BACKSLASH: byte := 0x5C
  const SLASH: byte := 0x2F
  const LETTER_U: byte := 0x75

  // ----- hexadecimal escapes -----

  function HexValue(b: byte): Option<nat> {
    if 0x30 <= b <= 0x39 then Some(b - 0x30)
    else if 0x61 <= b <= 0x66 then Some(b - 0x61 + 10)
    else if 0x41 <= b <= 0x46 then Some(b - 0x41 + 10)
    else None
  }

  // The hexadecimal digits that s starts with, at most k.
  function HexRun(s: seq<byte>, k: nat): (r: seq<byte>)
    ensures |r| <= k && r <= s && forall b | b in r :: HexValue(b).Some?
  {
    if k == 0 || s == [] || HexValue(s[0]).None? then [] else [s[0]] + HexRun(s[1..], k - 1)
  }

  // The number that hexadecimal digits stand for.
  function HexNumber(digits: seq<byte>): nat
    requires forall b | b in digits :: HexValue(b).Some?
  {
    if digits == [] then 0
    else
      assert digits[|digits| - 1] in digits;
      16 * HexNumber(digits[..|digits| - 1]) + HexValue(digits[|digits| - 1]).value
  }

  // The code unit of the four digits that s starts with.
  function Hex4(s: seq<byte>): Option<nat> {
    if |HexRun(s, 4)| == 4 then Some(HexNumber(HexRun(s, 4))) else None
  }

  predicate IsHigh(u: nat) {
    0xD800 <= u <= 0xDBFF
  }

  predicate IsLow(u: nat) {
    0xDC00 <= u <= 0xDFFF
  }

  // The code unit of the escape that s starts with.
  function UnitEscape(s: seq<byte>): Option<nat> {
    if |s| >= 2 && s[0] == BACKSLASH && s[1] == LETTER_U then Hex4(s[2..]) else None
  }

  // The code point of the escaped surrogate pair that s starts with.
  function PairEscape(s: seq<byte>): Option<nat> {
    match UnitEscape(s)
    case None => None
    case Some(high) =>
      if !IsHigh(high) || |s| < 12 then None
      else
        match UnitEscape(s[6..])
        case None => None
        case Some(low) => if IsLow(low) then Some(Combine(high, low)) else None
  }

  function Combine(high: nat, low: nat): (point: nat)
    requires IsHigh(high) && IsLow(low)
    ensures 0x10000 <= point <= 0x10FFFF
  {
    0x10000 + (high - 0xD800) * 0x400 + (low - 0xDC00)
  }

  // ----- UTF-8 -----

  predicate IsContinuation(b: byte) {
    0x80 <= b <= 0xBF
  }

  // The continuation bytes that s starts with, at most k.
  function ContinuationRun(s: seq<byte>, k: nat): (r: seq<byte>)
    ensures |r| <= k && r <= s && forall i | 0 <= i < |r| :: IsContinuation(r[i])
  {
    if k == 0 || s == [] || !IsContinuation(s[0]) then [] else [s[0]] + ContinuationRun(s[1..], k - 1)
  }

  // The code point of a lead byte and the continuation bytes after it, and its length.
  function Character(lead: byte, run: seq<byte>): (r: Option<(nat, nat)>)
    requires forall i | 0 <= i < |run| :: IsContinuation(run[i])
    ensures r.Some? ==> 1 <= r.value.1 <= 4 && r.value.1 <= 1 + |run|
  {
    if lead < 0x80 then
      var p: nat := lead;
      Some((p, 1))
    else if 0xC2 <= lead <= 0xDF && |run| >= 1 then
      var p: nat := Tail(lead - 0xC0, run[0]);
      Some((p, 2))
    else if 0xE0 <= lead <= 0xEF && |run| >= 2 &&
            (lead == 0xE0 ==> run[0] >= 0xA0) && (lead == 0xED ==> run[0] <= 0x9F) then
      var p: nat := Tail(Tail(lead - 0xE0, run[0]), run[1]);
      Some((p, 3))
    else if 0xF0 <= lead <= 0xF4 && |run| >= 3 &&
            (lead == 0xF0 ==> run[0] >= 0x90) && (lead == 0xF4 ==> run[0] <= 0x8F) then
      var p: nat := Tail(Tail(Tail(lead - 0xF0, run[0]), run[1]), run[2]);
      Some((p, 4))
    else None
  }

  // Six more bits from a continuation byte.
  function Tail(n: nat, b: byte): nat
    requires IsContinuation(b)
  {
    n * 64 + (b - 0x80)
  }

  // The UTF-8 form of a code point beyond the basic plane.
  function EncodeRune(point: nat): (bytes: seq<byte>)
    requires 0x10000 <= point <= 0x10FFFF
    ensures |bytes| == 4 && BACKSLASH !in bytes
    ensures forall i | 1 <= i < 4 :: IsContinuation(bytes[i])
    ensures Character(bytes[0], bytes[1..]) == Some((point, 4))
  {
    var b0, b1, b2, b3 := 0xF0 + point / 0x40000, 0x80 + point / 0x1000 % 64, 0x80 + point / 64 % 64, 0x80 + point % 64;
    SixBitsBack(point);
    [b0, b1, b2, b3]
  }

  // The four groups of bits make up the code point again, and its lead and second byte are in range.
  lemma SixBitsBack(point: nat)
    requires 0x10000 <= point <= 0x10FFFF
    ensures ((point / 0x40000 * 64 + point / 0x1000 % 64) * 64 + point / 64 % 64) * 64 + point % 64 == point
    ensures 0 <= point / 0x40000 <= 4
    ensures point / 0x40000 == 0 ==> point / 0x1000 % 64 >= 0x10
    ensures point / 0x40000 == 4 ==> point / 0x1000 % 64 <= 0x0F
  {
    var a, b := point / 64, point / 0x1000;
    assert b == a / 64 && point / 0x40000 == b / 64;
    assert point == a * 64 + point % 64 && a == b * 64 + a % 64 && b == b / 64 * 64 + b % 64;
  }

  // ----- what JSON text means -----

  // A code point (or lone surrogate), or a byte that is not part of well-formed text.
  datatype Item = Point(p: nat) | Junk(b: byte)

  // The meaning of a two-byte escape.
  function SimpleEscape(b: byte): Option<nat> {
    if b == 0x22 || b == BACKSLASH || b == SLASH then Some(b)  // quote, backslash, slash
    else if b == 0x62 then Some(8)  // b
    else if b == 0x66 then Some(12)  // f
    else if b == 0x6E then Some(10)  // n
    else if b == 0x72 then Some(13)  // r
    else if b == 0x74 then Some(9)  // t
    else None
  }

  // The decoded text, over any bytes.
  function Decode(s: seq<byte>): seq<Item>
    decreases |s|
  {
    if s == [] then []
    else if s[0] != BACKSLASH then
      match Character(s[0], ContinuationRun(s[1..], 3))
      case Some((p, n)) => [Point(p)] + Decode(s[n..])
      case None => [Junk(s[0])] + Decode(s[1..])
    else if |s| == 1 then [Junk(s[0])]
    else if SimpleEscape(s[1]).Some? then [Point(SimpleEscape(s[1]).value)] + Decode(s[2..])
    else if PairEscape(s).Some? then [Point(PairEscape(s).value)] + Decode(s[12..])
    else if UnitEscape(s).Some? then [Point(UnitEscape(s).value)] + Decode(s[6..])
    else [Junk(s[0]), Junk(s[1])] + Decode(s[2..])
  }

  // ----- the rewriting -----

  // The replacement of the escape that s starts with, and the escape's length.
  function Replacement(s: seq<byte>): Option<(seq<byte>, nat)> {
    if |s| >= 2 && s[0] == BACKSLASH && s[1] == SLASH then Some(([SLASH], 2))
    else
      match PairEscape(s)
      case Some(p) => Some((EncodeRune(p), 12))
      case None => None
  }

  // The length of the escape that s starts with when it is left alone.
  function Skip(s: seq<byte>): nat {
    if |s| < 2 then |s| else 2
  }

  function Normalized(s: seq<byte>): seq<byte>
    decreases |s|
  {
    if s == [] then []
    else if s[0] != BACKSLASH then [s[0]] + Normalized(s[1..])
    else
      match Replacement(s)
      case Some((bytes, n)) => bytes + Normalized(s[n..])
      case None => s[..Skip(s)] + Normalized(s[Skip(s)..])
  }

  // ----- the rewriting of written escapes -----

  function Ascii(c: char): byte
    requires c < 128 as char
  {
    c as int
  }

  // A hexadecimal digit, as it is written.
  function HexDigit(d: nat, upper: bool): byte
    requires d < 16
  {
    if d < 10 then Ascii('0') + d else Ascii(if upper then 'A' else 'a') + (d - 10)
  }

  // The escape of a code unit, with capital letters where it says so.
  function UnitText(u: nat, upper: seq<bool>): seq<byte>
    requires u < 0x10000 && |upper| == 4
  {
    [Ascii('\\'), Ascii('u'),
     HexDigit(u / 0x1000, upper[0]), HexDigit(u / 0x100 % 16, upper[1]),
     HexDigit(u / 0x10 % 16, upper[2]), HexDigit(u % 16, upper[3])]
  }

  lemma DigitReads(d: nat, upper: bool)
    requires d < 16
    ensures HexValue(HexDigit(d, upper)) == Some(d) && HexDigit(d, upper) != BACKSLASH
  {}

  lemma FourDigits(a: byte, b: byte, c: byte, d: byte, rest: seq<byte>)
    requires HexValue(a).Some? && HexValue(b).Some? && HexValue(c).Some? && HexValue(d).Some?
    ensures
      Hex4([a, b, c, d] + rest) ==
      Some(((HexValue(a).value * 16 + HexValue(b).value) * 16 + HexValue(c).value) * 16 + HexValue(d).value)
  {
    var s, all := [a, b, c, d] + rest, [a, b, c, d];
    assert s[1..] == [b, c, d] + rest && s[1..][1..] == [c, d] + rest;
    assert s[1..][1..][1..] == [d] + rest;
    assert HexRun(s[1..][1..][1..], 1) == [d];
    assert HexRun(s[1..][1..], 2) == [c, d];
    assert HexRun(s[1..], 3) == [b, c, d];
    assert HexRun(s, 4) == all;
    assert all[..3] == [a, b, c] && all[..3][..2] == [a, b] && all[..3][..2][..1] == [a];
    assert HexNumber([a]) == HexValue(a).value;
    assert HexNumber([a, b]) == HexValue(a).value * 16 + HexValue(b).value;
    assert HexNumber([a, b, c]) == (HexValue(a).value * 16 + HexValue(b).value) * 16 + HexValue(c).value;
  }

  // A written code unit is read back.
  lemma UnitReads(u: nat, upper: seq<bool>, rest: seq<byte>)
    requires u < 0x10000 && |upper| == 4
    ensures UnitEscape(UnitText(u, upper) + rest) == Some(u)
  {
    var a, b, c, d := u / 0x1000, u / 0x100 % 16, u / 0x10 % 16, u % 16;
    DigitReads(a, upper[0]);
    DigitReads(b, upper[1]);
    DigitReads(c, upper[2]);
    DigitReads(d, upper[3]);
    var digits := [HexDigit(a, upper[0]), HexDigit(b, upper[1]), HexDigit(c, upper[2]), HexDigit(d, upper[3])];
    assert (UnitText(u, upper) + rest)[2..] == digits + rest;
    FourDigits(digits[0], digits[1], digits[2], digits[3], rest);
    FourNibbles(u);
  }

  lemma FourNibbles(u: nat)
    ensures ((u / 0x1000 * 16 + u / 0x100 % 16) * 16 + u / 0x10 % 16) * 16 + u % 16 == u
  {
    var a, b := u / 0x10, u / 0x100;
    assert b == a / 16 && u / 0x1000 == b / 16;
  }

  // An escaped slash loses its backslash; other two-byte escapes stay.
  lemma ShortEscapes(b: byte, rest: seq<byte>)
    requires b != Ascii('u')
    ensures Normalized([Ascii('\\'), b] + rest) ==
            (if b == Ascii('/') then [Ascii('/')] else [Ascii('\\'), b]) + Normalized(rest)
  {
    var s := [Ascii('\\'), b] + rest;
    assert s[2..] == rest && s[..2] == [Ascii('\\'), b];
  }

  // Four bytes of UTF-8: three, six, six and six bits.
  predicate EncodesFour(bytes: seq<byte>, p: nat) {
    && |bytes| == 4 && 0xF0 <= bytes[0] <= 0xF4
    && 0x80 <= bytes[1] < 0xC0 && 0x80 <= bytes[2] < 0xC0 && 0x80 <= bytes[3] < 0xC0
    && var a: int, b: int, c: int, d: int := bytes[0], bytes[1], bytes[2], bytes[3];
       p == (a - 0xF0) * 0x40000 + (b - 0x80) * 0x1000 + (c - 0x80) * 0x40 + (d - 0x80)
  }

  lemma RuneIsFour(p: nat)
    requires 0x10000 <= p <= 0x10FFFF
    ensures EncodesFour(EncodeRune(p), p)
  {
    SixBitsBack(p);
  }

  /** Every code point beyond the basic plane, escaped as the two surrogates that UTF-16 makes of it, in
      small or capital letters, becomes its own UTF-8. */
  lemma WrittenPairBecomesItsCharacter(p: nat, upper: seq<bool>, rest: seq<byte>)
    requires 0x10000 <= p <= 0x10FFFF && |upper| == 8
    ensures
      var high, low := 0xD800 + (p - 0x10000) / 0x400, 0xDC00 + (p - 0x10000) % 0x400;
      var text := UnitText(high, upper[..4]) + UnitText(low, upper[4..]);
      exists bytes :: EncodesFour(bytes, p) && Normalized(text + rest) == bytes + Normalized(rest)
  {
    var high, low := 0xD800 + (p - 0x10000) / 0x400, 0xDC00 + (p - 0x10000) % 0x400;
    var a, b := UnitText(high, upper[..4]), UnitText(low, upper[4..]);
    var s := a + b + rest;
    assert s == a + (b + rest);
    UnitReads(high, upper[..4], b + rest);
    assert s[6..] == b + rest;
    UnitReads(low, upper[4..], rest);
    assert PairEscape(s) == Some(p);
    assert s[1] == Ascii('u') && s[12..] == rest;
    RuneIsFour(p);
  }

  /** An escaped code unit that is not the first of two surrogates stays as it is written. */
  lemma OtherUnitsStay(u: nat, upper: seq<bool>, next: nat, rest: seq<byte>)
    requires u < 0x10000 && next < 0x10000 && |upper| == 8
    requires !(0xD800 <= u < 0xDC00 && 0xDC00 <= next < 0xE000)
    ensures
      var first, tail := UnitText(u, upper[..4]), UnitText(next, upper[4..]) + rest;
      Normalized(first + tail) == first + Normalized(tail)
  {
    var first, tail := UnitText(u, upper[..4]), UnitText(next, upper[4..]) + rest;
    var s := first + tail;
    UnitReads(u, upper[..4], tail);
    assert s[6..] == tail;
    UnitReads(next, upper[4..], rest);
    assert Replacement(s).None?;
    UnitStays(first, tail);
  }

  // Six bytes that begin with a backslash, and no more of them, stay if the rewriting leaves them alone.
  lemma UnitStays(first: seq<byte>, tail: seq<byte>)
    requires |first| == 6 && first[0] == BACKSLASH && Replacement(first + tail).None?
    requires forall i | 2 <= i < 6 :: first[i] != BACKSLASH
    ensures Normalized(first + tail) == first + Normalized(tail)
  {
    var s := first + tail;
    assert s[..2] == first[..2] && s[2..] == first[2..] + tail;
    CopiesPlain(s[2..], 4);
    assert s[2..][..4] == first[2..] && s[2..][4..] == tail;
    assert first[..2] + (first[2..] + Normalized(tail)) == first + Normalized(tail);
  }

  // ----- the decoding of written text -----

  /** The two-byte escapes of RFC 8259 section 7. */
  lemma ShortEscapesMean(rest: seq<byte>)
    ensures Decode([Ascii('\\'), Ascii('"')] + rest) == [Point('"' as int)] + Decode(rest)
    ensures Decode([Ascii('\\'), Ascii('\\')] + rest) == [Point('\\' as int)] + Decode(rest)
    ensures Decode([Ascii('\\'), Ascii('/')] + rest) == [Point('/' as int)] + Decode(rest)
    ensures Decode([Ascii('\\'), Ascii('b')] + rest) == [Point(0x08)] + Decode(rest)
    ensures Decode([Ascii('\\'), Ascii('f')] + rest) == [Point(0x0C)] + Decode(rest)
    ensures Decode([Ascii('\\'), Ascii('n')] + rest) == [Point('\n' as int)] + Decode(rest)
    ensures Decode([Ascii('\\'), Ascii('r')] + rest) == [Point('\r' as int)] + Decode(rest)
    ensures Decode([Ascii('\\'), Ascii('t')] + rest) == [Point('\t' as int)] + Decode(rest)
  {
    ShortEscapeMeans(Ascii('"'), rest);
    ShortEscapeMeans(Ascii('\\'), rest);
    ShortEscapeMeans(Ascii('/'), rest);
    ShortEscapeMeans(Ascii('b'), rest);
    ShortEscapeMeans(Ascii('f'), rest);
    ShortEscapeMeans(Ascii('n'), rest);
    ShortEscapeMeans(Ascii('r'), rest);
    ShortEscapeMeans(Ascii('t'), rest);
  }

  lemma ShortEscapeMeans(b: byte, rest: seq<byte>)
    requires SimpleEscape(b).Some?
    ensures Decode([BACKSLASH, b] + rest) == [Point(SimpleEscape(b).value)] + Decode(rest)
  {
    assert ([BACKSLASH, b] + rest)[2..] == rest;
  }

  /** An escaped code unit that is not the first of two surrogates is read as itself. */
  lemma UnitMeans(u: nat, upper: seq<bool>, rest: seq<byte>)
    requires u < 0x10000 && !(0xD800 <= u < 0xDC00) && |upper| == 4
    ensures Decode(UnitText(u, upper) + rest) == [Point(u)] + Decode(rest)
  {
    UnitReads(u, upper, rest);
    assert (UnitText(u, upper) + rest)[6..] == rest;
  }

  // The UTF-8 form of a code point (RFC 3629 section 3).
  function Utf8(p: nat): seq<byte>
    requires p < 0x110000
  {
    if p < 0x80 then [p]
    else if p < 0x800 then [0xC0 + p / 0x40, 0x80 + p % 0x40]
    else if p < 0x10000 then [0xE0 + p / 0x1000, 0x80 + p / 0x40 % 0x40, 0x80 + p % 0x40]
    else [0xF0 + p / 0x40000, 0x80 + p / 0x1000 % 0x40, 0x80 + p / 0x40 % 0x40, 0x80 + p % 0x40]
  }

  lemma Utf8IsCharacter(p: nat)
    requires p < 0x110000 && !(0xD800 <= p < 0xE000)
    ensures
      var bytes := Utf8(p);
      && (forall i | 1 <= i < |bytes| :: IsContinuation(bytes[i]))
      && Character(bytes[0], bytes[1..]) == Some((p, |bytes|))
  {
    var bytes := Utf8(p);
    if p >= 0x10000 {
      SixBitsBack(p);
    } else if p >= 0x800 {
      assert p / 0x1000 == p / 0x40 / 0x40;
    }
  }

  /** Every code point that is no surrogate and no backslash is read from its UTF-8. */
  lemma Utf8Means(p: nat, rest: seq<byte>)
    requires p < 0x110000 && !(0xD800 <= p < 0xE000) && p != '\\' as int
    ensures Decode(Utf8(p) + rest) == [Point(p)] + Decode(rest)
  {
    Utf8IsCharacter(p);
    DecodeBytes(Utf8(p), p, rest);
  }

  lemma DecodeBytes(bytes: seq<byte>, p: nat, rest: seq<byte>)
    requires 1 <= |bytes| <= 4 && bytes[0] != BACKSLASH
    requires forall i | 1 <= i < |bytes| :: IsContinuation(bytes[i])
    requires Character(bytes[0], bytes[1..]) == Some((p, |bytes|))
    ensures Decode(bytes + rest) == [Point(p)] + Decode(rest)
  {
    var s := bytes + rest;
    assert s[1..] == bytes[1..] + rest && s[|bytes|..] == rest;
    RunBegins(bytes[1..], rest, 3);
    var run := ContinuationRun(s[1..], 3);
    assert run[..|bytes| - 1] == bytes[1..];
    MoreDoNotMatter(bytes[0], bytes[1..], run);
  }

  lemma {:induction false} RunBegins(bytes: seq<byte>, rest: seq<byte>, k: nat)
    requires |bytes| <= k && forall i | 0 <= i < |bytes| :: IsContinuation(bytes[i])
    ensures bytes <= ContinuationRun(bytes + rest, k)
  {
    if bytes != [] {
      assert (bytes + rest)[1..] == bytes[1..] + rest;
      RunBegins(bytes[1..], rest, k - 1);
    }
  }

  // A character is read from as many bytes as it takes.
  lemma MoreDoNotMatter(lead: byte, run: seq<byte>, more: seq<byte>)
    requires forall i | 0 <= i < |more| :: IsContinuation(more[i])
    requires run <= more && (forall i | 0 <= i < |run| :: IsContinuation(run[i])) && Character(lead, run).Some?
    ensures Character(lead, more) == Character(lead, run)
  {}

  // ----- rewriting later text does not change what a prefix means -----

  lemma {:induction false} HexRunKept(s: seq<byte>, k: nat)
    ensures HexRun(Normalized(s), k) == HexRun(s, k)
  {
    if k > 0 && s != [] && HexValue(s[0]).Some? {
      assert Normalized(s)[1..] == Normalized(s[1..]);
      HexRunKept(s[1..], k - 1);
    }
  }

  lemma {:induction false} ContinuationRunKept(s: seq<byte>, k: nat)
    ensures ContinuationRun(Normalized(s), k) == ContinuationRun(s, k)
  {
    if k > 0 && s != [] && IsContinuation(s[0]) {
      assert Normalized(s)[1..] == Normalized(s[1..]);
      ContinuationRunKept(s[1..], k - 1);
    } else if k > 0 && s != [] && s[0] == BACKSLASH && PairEscape(s).Some? {
      assert !IsContinuation(EncodeRune(PairEscape(s).value)[0]);
    }
  }

  // Bytes other than backslashes are copied.
  lemma {:induction false} CopiesPlain(s: seq<byte>, n: nat)
    requires n <= |s| && forall i | 0 <= i < n :: s[i] != BACKSLASH
    ensures Normalized(s) == s[..n] + Normalized(s[n..])
  {
    if n > 0 {
      CopiesPlain(s[1..], n - 1);
      PrefixAgain(s, n, Normalized(s[n..]));
    } else {
      assert s[..0] == [] && s[0..] == s;
    }
  }

  lemma PrefixAgain(s: seq<byte>, n: nat, tail: seq<byte>)
    requires 0 < n <= |s|
    ensures s[1..][n - 1..] == s[n..] && [s[0]] + (s[1..][..n - 1] + tail) == s[..n] + tail
  {
    assert s[1..][..n - 1] == s[1..n];
    assert [s[0]] + s[1..n] == s[..n];
  }

  lemma DigitsCopied(s: seq<byte>)
    ensures |HexRun(s, 4)| == 4 ==> |s| >= 4 && Normalized(s) == s[..4] + Normalized(s[4..])
  {
    var digits := HexRun(s, 4);
    if |digits| == 4 {
      forall i | 0 <= i < 4 ensures s[i] != BACKSLASH { assert s[i] == digits[i] && digits[i] in digits; }
      CopiesPlain(s, 4);
    }
  }

  // The first bytes of rewritten text.
  lemma Beginning(s: seq<byte>)
    ensures s != [] && s[0] != BACKSLASH ==> |Normalized(s)| >= 1 && Normalized(s)[0] != BACKSLASH
    ensures |s| >= 2 && s[0] == BACKSLASH && Replacement(s).Some? ==>
              |Normalized(s)| >= 1 && Normalized(s)[0] != BACKSLASH
    ensures |s| >= 2 && s[0] == BACKSLASH && Replacement(s).None? ==>
              && |Normalized(s)| >= 2 && Normalized(s)[..2] == s[..2] && Normalized(s)[2..] == Normalized(s[2..])
    ensures |s| < 2 ==> |Normalized(s)| < 2
  {
    if |s| == 1 { assert Normalized(s[1..]) == []; }
  }

  // A unit escape that is left alone stays what it is, whatever happens after it.
  lemma UnitEscapeKept(s: seq<byte>)
    requires |s| >= 2 && s[0] == BACKSLASH && Replacement(s).None?
    ensures UnitEscape(Normalized(s)) == UnitEscape(s)
    ensures UnitEscape(s).Some? ==> |s| >= 6 && Normalized(s) == s[..6] + Normalized(s[6..])
  {
    var t, rest := Normalized(s), s[2..];
    Beginning(s);
    assert t[0] == t[..2][0] == s[0] && t[1] == t[..2][1] == s[1];
    HexRunKept(rest, 4);
    if UnitEscape(s).Some? {
      DigitsCopied(rest);
      assert rest[4..] == s[6..];
      Join(s, t, Normalized(s[6..]));
    }
  }

  lemma Join(s: seq<byte>, t: seq<byte>, tail: seq<byte>)
    requires |s| >= 6 && |t| >= 2 && t[..2] == s[..2] && t[2..] == s[2..][..4] + tail
    ensures t == s[..6] + tail
  {
    assert t == t[..2] + t[2..];
    assert s[..2] + s[2..][..4] == s[..6];
  }

  // Rewritten text starts with a unit escape only where the original did.
  lemma UnitEscapeSource(s: seq<byte>)
    ensures UnitEscape(Normalized(s)).Some? ==> |s| >= 2 && s[0] == BACKSLASH && Replacement(s).None?
  {
    Beginning(s);
  }

  // No surrogate pair comes into being.
  lemma PairEscapeKept(s: seq<byte>)
    requires |s| >= 2 && s[0] == BACKSLASH && Replacement(s).None?
    ensures PairEscape(Normalized(s)).None?
  {
    UnitEscapeKept(s);
    if UnitEscape(s).Some? {
      var t, rest := Normalized(s), s[6..];
      assert t[6..] == Normalized(rest);
      UnitEscapeSource(rest);
      if UnitEscape(Normalized(rest)).Some? { UnitEscapeKept(rest); }
    }
  }

  // ----- the meaning is preserved -----

  /** Rewriting any bytes whatever, valid JSON or not, leaves the decoded text as it was. */
  lemma {:induction false} MeaningPreserved(s: seq<byte>)
    ensures Decode(Normalized(s)) == Decode(s)
    decreases |s|
  {
    if s == [] {
    } else if s[0] != BACKSLASH {
      PlainPreserved(s);
    } else if |s| == 1 {
      assert Normalized(s) == s by { assert s[1..] == []; }
    } else if Replacement(s).Some? {
      MeaningPreserved(s[Replacement(s).value.1..]);
      ReplacementMeans(s);
    } else {
      EscapePreserved(s);
    }
  }

  lemma {:induction false} PlainPreserved(s: seq<byte>)
    requires s != [] && s[0] != BACKSLASH
    ensures Decode(Normalized(s)) == Decode(s)
    decreases |s|, 0
  {
    var t, run := Normalized(s), ContinuationRun(s[1..], 3);
    assert t[0] == s[0] && t[1..] == Normalized(s[1..]);
    ContinuationRunKept(s[1..], 3);
    match Character(s[0], run)
    case Some((p, n)) =>
      forall i | 0 <= i < n ensures s[i] != BACKSLASH {
        if i > 0 { assert run[i - 1] == s[1..][i - 1]; }
      }
      CopiesPlain(s, n);
      assert t[n..] == Normalized(s[n..]);
      MeaningPreserved(s[n..]);
    case None => MeaningPreserved(s[1..]);
  }

  // After a four-byte character its three continuation bytes are found.
  lemma DecodePair(s: seq<byte>)
    requires |s| >= 2 && s[0] == BACKSLASH && s[1] != SLASH && PairEscape(s).Some?
    ensures Decode(s) == [Point(PairEscape(s).value)] + Decode(s[12..])
  {
    assert SimpleEscape(s[1]).None?;
  }

  lemma DecodeSlash(s: seq<byte>, tail: seq<byte>)
    requires |s| >= 2 && s[0] == BACKSLASH && s[1] == SLASH && Decode(tail) == Decode(s[2..])
    ensures Decode([SLASH] + tail) == Decode(s)
  {
    var t := [SLASH] + tail;
    assert Character(t[0], ContinuationRun(t[1..], 3)) == Some((SLASH as nat, 1));
    assert t[1..] == tail;
  }

  lemma ReplacementMeans(s: seq<byte>)
    requires |s| >= 2 && s[0] == BACKSLASH && Replacement(s).Some?
    requires var rest := s[Replacement(s).value.1..]; Decode(Normalized(rest)) == Decode(rest)
    ensures Decode(Normalized(s)) == Decode(s)
  {
    var (bytes, n) := Replacement(s).value;
    var tail := Normalized(s[n..]);
    if s[1] == SLASH {
      DecodeSlash(s, tail);
    } else {
      DecodePair(s);
      DecodeBytes(bytes, PairEscape(s).value, tail);
    }
  }

  lemma {:induction false} EscapePreserved(s: seq<byte>)
    requires |s| >= 2 && s[0] == BACKSLASH && Replacement(s).None?
    ensures Decode(Normalized(s)) == Decode(s)
    decreases |s|, 0
  {
    var t := Normalized(s);
    Beginning(s);
    assert t[0] == t[..2][0] == s[0] && t[1] == t[..2][1] == s[1];
    PairEscapeKept(s);
    UnitEscapeKept(s);
    if SimpleEscape(s[1]).None? && UnitEscape(s).Some? {
      assert t[6..] == Normalized(s[6..]);
      MeaningPreserved(s[6..]);
    } else {
      MeaningPreserved(s[2..]);
    }
  }

  // ----- nothing is left to rewrite, and nothing else is rewritten -----

  // Scanning from the left, no escape has a replacement.
  predicate NothingToRewrite(s: seq<byte>)
    decreases |s|
  {
    s == [] || if s[0] != BACKSLASH then NothingToRewrite(s[1..])
               else Replacement(s).None? && NothingToRewrite(s[Skip(s)..])
  }

  lemma {:induction false} PlainBytesAreDone(bytes: seq<byte>, tail: seq<byte>)
    requires BACKSLASH !in bytes && NothingToRewrite(tail)
    ensures NothingToRewrite(bytes + tail)
  {
    if bytes == [] {
      assert bytes + tail == tail;
    } else {
      assert (bytes + tail)[1..] == bytes[1..] + tail;
      PlainBytesAreDone(bytes[1..], tail);
    }
  }

  /** No `\/` and no escaped surrogate pair is left. */
  lemma {:induction false} NothingIsLeft(s: seq<byte>)
    ensures NothingToRewrite(Normalized(s))
    decreases |s|
  {
    if s == [] {
    } else if s[0] != BACKSLASH {
      NothingIsLeft(s[1..]);
      assert Normalized(s)[1..] == Normalized(s[1..]);
    } else if |s| == 1 {
      assert Normalized(s) == s by { assert s[1..] == []; }
    } else if Replacement(s).Some? {
      var (bytes, n) := Replacement(s).value;
      NothingIsLeft(s[n..]);
      PlainBytesAreDone(bytes, Normalized(s[n..]));
    } else {
      NothingIsLeft(s[2..]);
      Beginning(s);
      PairEscapeKept(s);
      assert Normalized(s)[0] == Normalized(s)[..2][0] && Normalized(s)[1] == Normalized(s)[..2][1];
    }
  }

  lemma {:induction false} NeverLonger(s: seq<byte>)
    ensures |Normalized(s)| <= |s|
    ensures |Normalized(s)| == |s| <==> NothingToRewrite(s)
    decreases |s|
  {
    if s == [] {
    } else if s[0] != BACKSLASH {
      NeverLonger(s[1..]);
    } else if Replacement(s).Some? {
      NeverLonger(s[Replacement(s).value.1..]);
    } else {
      NeverLonger(s[Skip(s)..]);
    }
  }

  lemma {:induction false} DoneIsUnchanged(s: seq<byte>)
    requires NothingToRewrite(s)
    ensures Normalized(s) == s
    decreases |s|
  {
    if s != [] {
      if s[0] != BACKSLASH {
        DoneIsUnchanged(s[1..]);
      } else {
        DoneIsUnchanged(s[Skip(s)..]);
        assert s == s[..Skip(s)] + s[Skip(s)..];
      }
    }
  }

  /** The text is unchanged exactly when nothing needs rewriting, and rewriting twice is rewriting once. */
  lemma UnchangedAndIdempotent(s: seq<byte>)
    ensures Normalized(s) == s <==> NothingToRewrite(s)
    ensures Normalized(Normalized(s)) == Normalized(s)
  {
    NeverLonger(s);
    if NothingToRewrite(s) { DoneIsUnchanged(s); }
    NothingIsLeft(s);
    DoneIsUnchanged(Normalized(s));
  }

  // ----- the scan as it runs -----

  method DecodeJSONUnicodeEscape(hex: seq<byte>) returns (value: Option<nat>)
    requires |hex| == 4
    ensures value == Hex4(hex)
  {
    var v: nat := 0;
    for i := 0 to 4
      invariant forall b | b in hex[..i] :: HexValue(b).Some?
      invariant v == HexNumber(hex[..i])
    {
      var digit := HexValue(hex[i]);
      if digit.None? {
        RunStops(hex, i, 4);
        return None;
      }
      assert hex[..i + 1][..i] == hex[..i];
      v := v * 16 + digit.value;
    }
    assert hex[..4] == hex;
    RunIsAll(hex, hex);
    return Some(v);
  }

  lemma {:induction false} RunIsAll(digits: seq<byte>, s: seq<byte>)
    requires digits <= s && forall b | b in digits :: HexValue(b).Some?
    ensures HexRun(s, |digits|) == digits
  {
    if digits != [] {
      assert digits[0] in digits;
      RunIsAll(digits[1..], s[1..]);
    }
  }

  lemma {:induction false} RunStops(hex: seq<byte>, i: nat, k: nat)
    requires i < |hex| && HexValue(hex[i]).None?
    ensures |HexRun(hex, k)| <= i
  {
    if i > 0 && k > 0 { RunStops(hex[1..], i - 1, k - 1); }
  }

  // Only the four bytes at the front matter.
  lemma {:induction false} RunIsLocal(s: seq<byte>, k: nat)
    requires k <= |s|
    ensures HexRun(s[..k], k) == HexRun(s, k)
  {
    if k > 0 {
      assert s[..k][1..] == s[1..][..k - 1];
      RunIsLocal(s[1..], k - 1);
    }
  }

  method JsonEscapeReplacement(json: seq<byte>, escape: nat) returns (r: Option<(seq<byte>, nat)>)
    requires escape < |json| && json[escape] == BACKSLASH
    ensures r == Replacement(json[escape..])
  {
    ghost var s := json[escape..];
    if escape + 1 >= |json| { return None; }
    if json[escape + 1] == SLASH { return Some(([SLASH], 2)); }
    if json[escape + 1] != LETTER_U { return None; }
    if escape + 12 > |json| { return None; }
    var high := DecodeJSONUnicodeEscape(json[escape + 2..escape + 6]);
    assert s[2..][..4] == json[escape + 2..escape + 6];
    RunIsLocal(s[2..], 4);
    if high.None? || !IsHigh(high.value) { return None; }
    var lowEscape := escape + 6;
    if json[lowEscape] != BACKSLASH || json[lowEscape + 1] != LETTER_U { return None; }
    var low := DecodeJSONUnicodeEscape(json[lowEscape + 2..lowEscape + 6]);
    assert s[6..][2..][..4] == json[lowEscape + 2..lowEscape + 6];
    RunIsLocal(s[6..][2..], 4);
    if low.None? || !IsLow(low.value) { return None; }
    return Some((EncodeRune(Combine(high.value, low.value)), 12));
  }

  // The position of the next backslash, or the length.
  function NextBackslash(s: seq<byte>, i: nat): (j: nat)
    requires i <= |s|
    ensures i <= j <= |s| && (j < |s| ==> s[j] == BACKSLASH)
    ensures forall k | i <= k < j :: s[k] != BACKSLASH
    decreases |s| - i
  {
    if i == |s| || s[i] == BACKSLASH then i else NextBackslash(s, i + 1)
  }

  lemma CopiesBetween(s: seq<byte>, i: nat, j: nat)
    requires i <= j <= |s| && forall k | i <= k < j :: s[k] != BACKSLASH
    ensures Normalized(s[i..]) == s[i..j] + Normalized(s[j..])
  {
    CopiesPlain(s[i..], j - i);
    assert s[i..][..j - i] == s[i..j] && s[i..][j - i..] == s[j..];
  }

  // The output so far, and the input from `last` on, make up the result: what lies between
  // last and scan is kept.
  ghost predicate Scanned(json: seq<byte>, out: seq<byte>, last: nat, scan: nat) {
    && last <= scan <= |json|
    && Normalized(json) == (out + json[last..scan]) + Normalized(json[scan..])
  }

  lemma KeepUpTo(json: seq<byte>, out: seq<byte>, last: nat, scan: nat, next: nat)
    requires Scanned(json, out, last, scan) && scan <= next <= |json|
    requires Normalized(json[scan..]) == json[scan..next] + Normalized(json[next..])
    ensures Scanned(json, out, last, next)
  {
    assert json[last..next] == json[last..scan] + json[scan..next];
    Regroup(out, json[last..scan], json[scan..next], Normalized(json[next..]));
  }

  lemma Regroup(a: seq<byte>, b: seq<byte>, c: seq<byte>, d: seq<byte>)
    ensures (a + b) + (c + d) == (a + (b + c)) + d
  {}

  // At the end of the text the scan has it all.
  lemma AllScanned(json: seq<byte>, out: seq<byte>, last: nat)
    requires Scanned(json, out, last, |json|)
    ensures Normalized(json) == out + json[last..] && (out == [] && last == 0 ==> Normalized(json) == json)
  {
    var rest := json[last..|json|];
    assert json[|json|..] == [] && rest == json[last..] && (out + rest) + [] == out + rest;
    if out == [] && last == 0 { assert [] + json[0..] == json; }
  }

  lemma Replace(json: seq<byte>, out: seq<byte>, last: nat, escape: nat, bytes: seq<byte>, n: nat)
    requires Scanned(json, out, last, escape) && escape < |json| && json[escape] == BACKSLASH
    requires Replacement(json[escape..]) == Some((bytes, n))
    ensures escape + n <= |json| && Scanned(json, (out + json[last..escape]) + bytes, escape + n, escape + n)
  {
    assert json[escape..][n..] == json[escape + n..];
    assert Normalized(json[escape..]) == bytes + Normalized(json[escape + n..]);
    assert json[escape + n..escape + n] == [];
  }

  lemma LeaveAlone(json: seq<byte>, out: seq<byte>, last: nat, escape: nat)
    requires Scanned(json, out, last, escape) && escape < |json| && json[escape] == BACKSLASH
    requires Replacement(json[escape..]).None?
    ensures Scanned(json, out, last, NextScan(json, escape))
  {
    var n := Skip(json[escape..]);
    assert json[escape..][n..] == json[escape + n..] && json[escape..][..n] == json[escape..escape + n];
    KeepUpTo(json, out, last, escape, escape + n);
  }

  function NextScan(json: seq<byte>, escape: nat): nat {
    if escape + 1 >= |json| then escape + 1 else escape + 2
  }

  function Written(result: Option<seq<byte>>): seq<byte> {
    if result.Some? then result.value else []
  }

  // One escape of the scan: replaced, with what was kept before it, or left alone.
  method PassEscape(json: seq<byte>, result0: Option<seq<byte>>, last0: nat, escape: nat)
    returns (result: Option<seq<byte>>, last: nat, scan: nat)
    requires Scanned(json, Written(result0), last0, escape) && (result0.None? ==> last0 == 0)
    requires escape < |json| && json[escape] == BACKSLASH
    ensures escape < scan && Scanned(json, Written(result), last, scan) && (result.None? ==> last == 0)
  {
    var replacement := JsonEscapeReplacement(json, escape);
    if replacement.None? {
      LeaveAlone(json, Written(result0), last0, escape);
      return result0, last0, NextScan(json, escape);
    }
    var (bytes, consumed) := replacement.value;
    Replace(json, Written(result0), last0, escape, bytes, consumed);
    result := Some((Written(result0) + json[last0..escape]) + bytes);
    last, scan := escape + consumed, escape + consumed;
  }

  /** The scan computes the rewriting; the text itself is returned when nothing was replaced. */
  method NormalizeJSONForYAMLParser(json: seq<byte>) returns (r: seq<byte>)
    ensures r == Normalized(json)
  {
    if NextBackslash(json, 0) == |json| {
      CopiesBetween(json, 0, |json|);
      assert json[0..] == json && json[0..|json|] + [] == json;
      return json;
    }
    var result: Option<seq<byte>>, last: nat, scan: nat := None, 0, 0;
    assert json[0..] == json && json[0..0] == [];
    while scan < |json|
      invariant last <= scan <= |json| && (result.None? ==> last == 0)
      invariant Scanned(json, Written(result), last, scan)
    {
      var escape := NextBackslash(json, scan);
      CopiesBetween(json, scan, escape);
      KeepUpTo(json, Written(result), last, scan, escape);
      if escape == |json| {
        scan := escape;
        break;
      }
      result, last, scan := PassEscape(json, result, last, escape);
    }
    AllScanned(json, Written(result), last);
    if result.None? { return json; }
    r := result.value + json[last..];
  }
}
