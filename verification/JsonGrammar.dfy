/** What the decoder's readers accept, said without them: escapes, white space and number literals
    (sections 2, 6 and 7 of RFC 8259). */
module JsonGrammar {
  import opened Bytes
  import opened Utf8
  import opened Json

  // ---------------------------------------------------------------------------
  // Escapes
  // ---------------------------------------------------------------------------

  /** Four hex digits, in upper or lower case, spell c. */
  ghost predicate Spells(hex: Bytes, c: nat) {
    && |hex| == 4
    && (forall i :: 0 <= i < 4 ==> HexSpells(hex[i], c / Pow16(3 - i) % 16))
    && c < 0x10000
  }

  function Pow16(k: nat): (p: nat)
    ensures p > 0
  {
    if k == 0 then 1 else 16 * Pow16(k - 1)
  }

  /** '0' to '9', 'a' to 'f' and 'A' to 'F'. */
  ghost predicate HexSpells(b: Byte, v: nat) {
    || (v < 10 && b == 0x30 + v)
    || (10 <= v < 16 && (b == 0x61 + v - 10 || b == 0x41 + v - 10))
  }

  lemma HexIs(b: Byte, v: nat)
    ensures HexSpells(b, v) <==> HexValue(b) == v && v < 16
  {
  }

  lemma Nibbles(c: nat)
    requires c < 0x10000
    ensures c == ((c / 4096 % 16 * 16 + c / 256 % 16) * 16 + c / 16 % 16) * 16 + c % 16
  {
    assert c / 16 / 16 == c / 256 && c / 256 / 16 == c / 4096;
  }

  lemma ReadHexIs(hex: Bytes, c: nat, rest: Bytes)
    requires Spells(hex, c)
    ensures ReadHex4(hex + rest) == Got(c, rest)
  {
    assert Pow16(1) == 16 && Pow16(2) == 256 && Pow16(3) == 4096;
    var s := hex + rest;
    assert s[0] == hex[0] && s[1] == hex[1] && s[2] == hex[2] && s[3] == hex[3] && s[4..] == rest;
    HexIs(hex[0], c / 4096 % 16);
    HexIs(hex[1], c / 256 % 16);
    HexIs(hex[2], c / 16 % 16);
    HexIs(hex[3], c % 16);
    Nibbles(c);
  }

  const LETTER_U: Byte := 0x75

  /** A scalar of the basic plane is escaped by its four hex digits. */
  lemma PlainEscape(hex: Bytes, c: nat, rest: Bytes)
    requires Spells(hex, c) && IsScalar(c)
    ensures ReadEscape([LETTER_U] + hex + rest) == Got(EncodeUtf8(c), rest)
  {
    hide ReadHex4, EncodeUtf8, Spells;
    assert ([LETTER_U] + hex + rest)[1..] == hex + rest;
    ReadHexIs(hex, c, rest);
  }

  /** Every scalar above the basic plane is escaped by its UTF-16 pair, the ten high bits first (section 2.1 of
      RFC 2781). */
  lemma PairEscape(high: Bytes, low: Bytes, c: nat, rest: Bytes)
    requires 0x10000 <= c <= 0x10FFFF
    requires Spells(high, 0xD800 + (c - 0x10000) / 1024) && Spells(low, 0xDC00 + (c - 0x10000) % 1024)
    ensures ReadEscape([LETTER_U] + high + [BACKSLASH, LETTER_U] + low + rest) == Got(EncodeUtf8(c), rest)
  {
    hide ReadHex4, EncodeUtf8, Spells;
    var u := c - 0x10000;
    var first, second := 0xD800 + u / 1024, 0xDC00 + u % 1024;
    var tail := [BACKSLASH, LETTER_U] + low + rest;
    assert ([LETTER_U] + high + [BACKSLASH, LETTER_U] + low + rest)[1..] == high + tail;
    ReadHexIs(high, first, tail);
    assert tail[2..] == low + rest;
    SpellsFour(low, second);
    ReadHexIs(low, second, rest);
    assert (first - 0xD800) * 1024 + (second - 0xDC00) == u;
  }

  lemma SpellsFour(hex: Bytes, c: nat)
    requires Spells(hex, c)
    ensures |hex| == 4
  {
  }

  /** Half a pair is refused: a low one alone, and a high one that no low one follows. */
  lemma LoneSurrogate(hex: Bytes, c: nat, rest: Bytes)
    requires Spells(hex, c) && !IsScalar(c)
    ensures ReadEscape([LETTER_U] + hex + rest).Got? ==>
      c < 0xDC00 && exists low, d, after :: Spells(low, d) && 0xDC00 <= d <= 0xDFFF
                                         && rest == [BACKSLASH, LETTER_U] + low + after
  {
    hide *;
    ReadHexIs(hex, c, rest);
    UnicodeFollows(hex + rest);
    assert [LETTER_U] + hex + rest == [LETTER_U] + (hex + rest);
    if ReadEscape([LETTER_U] + hex + rest).Got? {
      PairFollows(hex + rest, c, rest);
      var low, d := rest[2..6], ReadHex4(rest[2..]).value;
      HexRead(rest[2..]);
      assert rest[2..][..4] == low;
      assert rest == [BACKSLASH, LETTER_U] + low + rest[6..];
    }
  }

  lemma UnicodeFollows(s: Bytes)
    ensures ReadEscape([LETTER_U] + s).Got? <==> ReadUnicode(s).Got?
  {
    hide ReadUnicode, EncodeUtf8;
    assert ([LETTER_U] + s)[1..] == s;
  }

  lemma PairFollows(s: Bytes, first: nat, rest: Bytes)
    requires ReadHex4(s) == Got(first, rest) && !IsScalar(first) && ReadUnicode(s).Got?
    ensures first < 0xDC00 && |rest| >= 6 && rest[0] == BACKSLASH && rest[1] == LETTER_U
    ensures ReadHex4(rest[2..]).Got? && 0xDC00 <= ReadHex4(rest[2..]).value <= 0xDFFF
  {
    hide ReadHex4;
  }

  /** Whatever four digits were read spell the value. */
  lemma HexRead(s: Bytes)
    requires ReadHex4(s).Got?
    ensures |s| >= 4 && Spells(s[..4], ReadHex4(s).value)
  {
    var c := ReadHex4(s).value;
    assert Pow16(1) == 16 && Pow16(2) == 256 && Pow16(3) == 4096;
    var h := s[..4];
    NibblesOf(HexValue(s[0]), HexValue(s[1]), HexValue(s[2]), HexValue(s[3]));
    forall i | 0 <= i < 4
      ensures HexSpells(h[i], c / Pow16(3 - i) % 16)
    {
      HexIs(h[i], HexValue(h[i]));
    }
  }

  lemma NibblesOf(a: nat, b: nat, c: nat, d: nat)
    requires a < 16 && b < 16 && c < 16 && d < 16
    ensures var n := ((a * 16 + b) * 16 + c) * 16 + d;
      n / 4096 % 16 == a && n / 256 % 16 == b && n / 16 % 16 == c && n % 16 == d
  {
    var n := ((a * 16 + b) * 16 + c) * 16 + d;
    assert n / 16 == (a * 16 + b) * 16 + c;
    assert n / 256 == a * 16 + b;
    assert n / 4096 == a;
  }

  /** The table of section 7: the letter behind the backslash, and the character it stands for. */
  ghost predicate ShortEscape(letter: char, c: Byte) {
    || (letter == '"' && c == 0x22) || (letter == '\\' && c == 0x5C) || (letter == '/' && c == 0x2F)
    || (letter == 'b' && c == 0x08) || (letter == 'f' && c == 0x0C) || (letter == 'n' && c == 0x0A)
    || (letter == 'r' && c == 0x0D) || (letter == 't' && c == 0x09)
  }

  /** The short escapes are exactly those of the table; any other letter but u is refused. */
  lemma ShortEscapesAre(b: Byte, rest: Bytes)
    requires b != LETTER_U
    ensures forall c: Byte :: ShortEscape(b as char, c) ==> ReadEscape([b] + rest) == Got([c], rest)
    ensures b as char !in "\"\\/bfnrt" ==> ReadEscape([b] + rest) == Bad(Syntax)
  {
    assert ([b] + rest)[1..] == rest;
    assert ShortEscape('"', 0x22) && ShortEscape('\\', 0x5C) && ShortEscape('/', 0x2F) && ShortEscape('b', 0x08);
    assert ShortEscape('f', 0x0C) && ShortEscape('n', 0x0A) && ShortEscape('r', 0x0D) && ShortEscape('t', 0x09);
  }

  // ---------------------------------------------------------------------------
  // White space
  // ---------------------------------------------------------------------------

  ghost predicate IsBlank(c: char) {
    c == ' ' || c == '\t' || c == '\n' || c == '\r'
  }

  ghost predicate AllBlank(s: Bytes, k: nat)
    requires k <= |s|
  {
    forall i :: 0 <= i < k ==> IsBlank(s[i] as char)
  }

  /** Blanks, tabs and line ends are skipped, and nothing else. */
  lemma {:induction false} SpaceIs(s: Bytes) returns (k: nat)
    ensures k <= |s| && AllBlank(s, k) && SkipSpace(s) == s[k..] && (k < |s| ==> !IsBlank(s[k] as char))
  {
    k := 0;
    if s != [] && IsSpace(s[0]) {
      var n := SpaceIs(s[1..]);
      k := n + 1;
      assert forall i :: 1 <= i < k ==> s[i] == s[1..][i - 1];
      assert s[1..][n..] == s[k..];
    }
  }

  // ---------------------------------------------------------------------------
  // Numbers
  // ---------------------------------------------------------------------------

  ghost predicate Digits(s: Bytes) {
    s != [] && forall i :: 0 <= i < |s| ==> '0' <= s[i] as char <= '9'
  }

  /** No digit but a lone zero may come first. */
  ghost predicate IntegerDigits(s: Bytes) {
    Digits(s) && (s[0] as char == '0' ==> |s| == 1)
  }

  ghost predicate Minus(s: Bytes) {
    s == [] || (|s| == 1 && s[0] as char == '-')
  }

  ghost predicate Fraction(s: Bytes) {
    s == [] || (s[0] as char == '.' && Digits(s[1..]))
  }

  ghost predicate Sign(s: Bytes) {
    s == [] || (|s| == 1 && (s[0] as char == '+' || s[0] as char == '-'))
  }

  ghost predicate Exponent(s: Bytes) {
    s == [] || ((s[0] as char == 'e' || s[0] as char == 'E')
                && exists k :: 1 <= k <= |s| && Sign(s[1..k]) && Digits(s[k..]))
  }

  ghost predicate Starts(s: Bytes, c: char) {
    s != [] && s[0] as char == c
  }

  /** A number literal in four parts, and what follows it: nothing that could still belong to it. */
  ghost predicate Literal(sign: Bytes, digits: Bytes, fraction: Bytes, exponent: Bytes, rest: Bytes) {
    && Minus(sign) && IntegerDigits(digits) && Fraction(fraction) && Exponent(exponent)
    && Behind(fraction, exponent, rest)
  }

  ghost predicate Behind(fraction: Bytes, exponent: Bytes, rest: Bytes) {
    && (rest != [] ==> !('0' <= rest[0] as char <= '9'))
    && (fraction == [] && exponent == [] ==> !Starts(rest, '.'))
    && (exponent == [] ==> !Starts(rest, 'e') && !Starts(rest, 'E'))
  }

  lemma {:induction false} CountIs(digits: Bytes, rest: Bytes)
    requires forall i :: 0 <= i < |digits| ==> IsDigit(digits[i])
    requires rest == [] || !IsDigit(rest[0])
    ensures DigitCount(digits + rest) == |digits|
  {
    if digits == [] {
      assert digits + rest == rest;
    } else {
      assert (digits + rest)[1..] == digits[1..] + rest;
      CountIs(digits[1..], rest);
    }
  }

  lemma IntegerIs(digits: Bytes, rest: Bytes)
    requires IntegerDigits(digits) && (rest == [] || !IsDigit(rest[0]))
    ensures IntegerLength(digits + rest) == |digits|
  {
    var s := digits + rest;
    assert s[0] == digits[0] && (|digits| < |s| ==> s[|digits|] == rest[0]);
    CountIs(digits, rest);
  }

  lemma FractionIs(fraction: Bytes, rest: Bytes)
    requires Fraction(fraction) && (rest == [] || !IsDigit(rest[0])) && (fraction == [] ==> !Starts(rest, '.'))
    ensures FractionPart(fraction + rest) == if fraction == [] then Absent else Present(|fraction|)
  {
    if fraction == [] {
      assert fraction + rest == rest;
    } else {
      assert (fraction + rest)[1..] == fraction[1..] + rest;
      CountIs(fraction[1..], rest);
    }
  }

  lemma ExponentIs(exponent: Bytes, rest: Bytes)
    requires Exponent(exponent) && (rest == [] || !IsDigit(rest[0]))
    requires exponent == [] ==> !Starts(rest, 'e') && !Starts(rest, 'E')
    ensures ExponentPart(exponent + rest) == if exponent == [] then Absent else Present(|exponent|)
  {
    if exponent == [] {
      assert exponent + rest == rest;
    } else {
      var k :| 1 <= k <= |exponent| && Sign(exponent[1..k]) && Digits(exponent[k..]);
      ExponentAt(exponent, k, rest);
    }
  }

  lemma ExponentAt(exponent: Bytes, k: nat, rest: Bytes)
    requires exponent != [] && (exponent[0] as char == 'e' || exponent[0] as char == 'E')
    requires 1 <= k <= |exponent| && Sign(exponent[1..k]) && Digits(exponent[k..])
    requires rest == [] || !IsDigit(rest[0])
    ensures ExponentPart(exponent + rest) == Present(|exponent|)
  {
    hide DigitCount;
    var s := exponent + rest;
    var digits := exponent[k..];
    assert digits[0] == exponent[k] == s[k];
    assert k == 2 ==> exponent[1..k][0] == exponent[1] == s[1];
    assert s[k..] == digits + rest;
    CountIs(digits, rest);
  }

  lemma TailAccepted(s: Bytes, sign: nat, at: nat, fraction: Bytes, exponent: Bytes, rest: Bytes)
    requires sign <= 1 && sign < at <= |s| && s[at..] == fraction + (exponent + rest)
    requires Fraction(fraction) && Exponent(exponent) && Behind(fraction, exponent, rest)
    ensures ScanTail(s, sign, at) == Token(sign, at + |fraction| + |exponent|, fraction != [] || exponent != [])
  {
    hide FractionPart, ExponentPart;
    var tail := exponent + rest;
    assert tail != [] ==> tail[0] == (if exponent == [] then rest else exponent)[0];
    FractionIs(fraction, tail);
    assert s[at + |fraction|..] == s[at..][|fraction|..] == tail;
    ExponentIs(exponent, rest);
  }

  lemma LiteralParts(sign: Bytes, digits: Bytes, fraction: Bytes, exponent: Bytes, rest: Bytes)
    requires Literal(sign, digits, fraction, exponent, rest)
    ensures Minus(sign) && |sign| <= 1 && IntegerDigits(digits) && Fraction(fraction) && Exponent(exponent)
    ensures Behind(fraction, exponent, rest)
  {
  }

  lemma ScanBehind(s: Bytes, sign: nat, digits: Bytes, behind: Bytes, fraction: Bytes, exponent: Bytes, rest: Bytes)
    requires sign == (if s != [] && s[0] == MINUS then 1 else 0) && sign + |digits| <= |s|
    requires s[sign..] == digits + behind && s[sign + |digits|..] == behind && behind == fraction + (exponent + rest)
    requires IntegerDigits(digits) && |digits| > 0 && (behind == [] || !IsDigit(behind[0]))
    requires Fraction(fraction) && Exponent(exponent) && Behind(fraction, exponent, rest)
    ensures ScanNumber(s) == Token(sign, sign + |digits| + |fraction| + |exponent|, fraction != [] || exponent != [])
  {
    hide *;
    IntegerIs(digits, behind);
    ScanIs(s, sign, |digits|);
    TailAccepted(s, sign, sign + |digits|, fraction, exponent, rest);
  }

  lemma ScanGrouped(sign: Bytes, digits: Bytes, behind: Bytes, fraction: Bytes, exponent: Bytes, rest: Bytes)
    requires Literal(sign, digits, fraction, exponent, rest) && behind == fraction + (exponent + rest)
    ensures ScanNumber(sign + (digits + behind))
         == Token(|sign|, |sign| + |digits| + |fraction| + |exponent|, fraction != [] || exponent != [])
  {
    hide *;
    LiteralParts(sign, digits, fraction, exponent, rest);
    SignIs(sign, digits, behind);
    Dropped(sign, digits, behind);
    BehindDigits(fraction, exponent, rest);
    ScanBehind(sign + (digits + behind), |sign|, digits, behind, fraction, exponent, rest);
  }

  /** Every literal is read to its end, whatever follows. */
  lemma LiteralAccepted(sign: Bytes, digits: Bytes, fraction: Bytes, exponent: Bytes, rest: Bytes)
    requires Literal(sign, digits, fraction, exponent, rest)
    ensures ScanNumber(sign + digits + fraction + exponent + rest)
         == Token(|sign|, |sign| + |digits| + |fraction| + |exponent|, fraction != [] || exponent != [])
  {
    hide *;
    Grouped(sign, digits, fraction, exponent, rest);
    ScanGrouped(sign, digits, fraction + (exponent + rest), fraction, exponent, rest);
  }

  lemma BehindDigits(fraction: Bytes, exponent: Bytes, rest: Bytes)
    requires Fraction(fraction) && Exponent(exponent) && Behind(fraction, exponent, rest)
    ensures var t := fraction + (exponent + rest); t == [] || !IsDigit(t[0])
  {
    var t := fraction + (exponent + rest);
    assert t != [] ==> t[0] == (if fraction != [] then fraction else if exponent != [] then exponent else rest)[0];
  }

  lemma SignIs(sign: Bytes, digits: Bytes, behind: Bytes)
    requires Minus(sign) && IntegerDigits(digits)
    ensures var s := sign + (digits + behind); |digits| > 0 && |sign| == if s != [] && s[0] == MINUS then 1 else 0
  {
    var s := sign + (digits + behind);
    assert s[0] == if sign == [] then digits[0] else sign[0];
  }

  lemma ScanIs(s: Bytes, sign: nat, digits: nat)
    requires sign == (if s != [] && s[0] == MINUS then 1 else 0) && IntegerLength(s[sign..]) == digits > 0
    ensures sign <= 1 && ScanNumber(s) == ScanTail(s, sign, sign + digits)
  {
    hide IntegerLength, ScanTail;
  }

  lemma Grouped(sign: Bytes, digits: Bytes, fraction: Bytes, exponent: Bytes, rest: Bytes)
    ensures sign + digits + fraction + exponent + rest == sign + (digits + (fraction + (exponent + rest)))
  {
  }

  lemma Dropped(a: Bytes, b: Bytes, c: Bytes)
    ensures (a + (b + c))[|a|..] == b + c && (a + (b + c))[|a| + |b|..] == c
  {
  }

  lemma IntegerRead(s: Bytes)
    requires IntegerLength(s) > 0
    ensures var n := IntegerLength(s); IntegerDigits(s[..n]) && (n < |s| ==> !IsDigit(s[n]))
  {
  }

  lemma FractionRead(s: Bytes)
    requires !FractionPart(s).Malformed?
    ensures var n := PartLength(FractionPart(s));
      Fraction(s[..n]) && (n < |s| && n > 0 ==> !IsDigit(s[n])) && (n == 0 ==> !Starts(s, '.'))
  {
    if FractionPart(s).Present? {
      var n := FractionPart(s).length;
      assert s[..n][1..] == s[1..][..n - 1];
      assert n < |s| ==> s[n] == s[1..][n - 1];
    }
  }

  lemma ExponentRead(s: Bytes)
    requires !ExponentPart(s).Malformed?
    ensures var n := PartLength(ExponentPart(s));
      && Exponent(s[..n]) && (n < |s| && n > 0 ==> !IsDigit(s[n]))
      && (n == 0 ==> !Starts(s, 'e') && !Starts(s, 'E'))
  {
    if ExponentPart(s).Present? {
      var n := ExponentPart(s).length;
      var k := if |s| > 1 && (s[1] == 0x2B || s[1] == MINUS) then 2 else 1;
      DigitsRead(s, k, n);
      assert s[..n][1..k] == s[1..k];
      assert Sign(s[..n][1..k]) && Digits(s[..n][k..]);
    }
  }

  lemma DigitsRead(s: Bytes, k: nat, n: nat)
    requires k <= |s| && n == k + DigitCount(s[k..]) && DigitCount(s[k..]) > 0
    ensures Digits(s[..n][k..]) && (n < |s| ==> !IsDigit(s[n]))
  {
    assert s[..n][k..] == s[k..][..n - k];
    assert n < |s| ==> s[n] == s[k..][n - k];
  }

  /** The sign and the integer digits of a number that was read. */
  lemma FrontRead(s: Bytes) returns (sign: Bytes, digits: Bytes)
    requires ScanNumber(s).Token?
    ensures Minus(sign) && |sign| <= 1 && IntegerDigits(digits) && |digits| > 0
    ensures var at := |sign| + |digits|;
      && at <= |s| && s == sign + (digits + s[at..]) && (at < |s| ==> !IsDigit(s[at]))
      && ScanNumber(s) == ScanTail(s, |sign|, at)
  {
    hide *;
    sign := SignFound(s);
    digits := IntegerFound(s[|sign|..]);
    Joined(s, |sign|, |digits|);
    assert |sign| + |digits| < |s| ==> s[|sign| + |digits|] == s[|sign|..][|digits|];
  }

  lemma SignFound(s: Bytes) returns (sign: Bytes)
    requires ScanNumber(s).Token?
    ensures Minus(sign) && |sign| <= 1 && |sign| <= |s| && sign == s[..|sign|]
    ensures var n := IntegerLength(s[|sign|..]); n > 0 && ScanNumber(s) == ScanTail(s, |sign|, |sign| + n)
  {
    hide IntegerLength, ScanTail;
    sign := s[..if s != [] && s[0] == MINUS then 1 else 0];
  }

  lemma IntegerFound(s: Bytes) returns (digits: Bytes)
    requires IntegerLength(s) > 0
    ensures |digits| == IntegerLength(s) <= |s| && digits == s[..|digits|] && IntegerDigits(digits)
    ensures |digits| < |s| ==> !IsDigit(s[|digits|])
  {
    IntegerRead(s);
    digits := s[..IntegerLength(s)];
  }

  lemma LiteralFrom(sign: Bytes, digits: Bytes, fraction: Bytes, exponent: Bytes, rest: Bytes)
    requires Minus(sign) && IntegerDigits(digits) && Fraction(fraction) && Exponent(exponent)
    requires Behind(fraction, exponent, rest)
    ensures Literal(sign, digits, fraction, exponent, rest)
  {
  }

  /** Whatever was read as a number is a literal, read to its end. */
  lemma LiteralRead(s: Bytes) returns (sign: Bytes, digits: Bytes, fraction: Bytes, exponent: Bytes, rest: Bytes)
    requires ScanNumber(s).Token?
    ensures s == sign + digits + fraction + exponent + rest && Literal(sign, digits, fraction, exponent, rest)
    ensures ScanNumber(s) == Token(|sign|, |s| - |rest|, fraction != [] || exponent != [])
  {
    hide *;
    sign, digits := FrontRead(s);
    fraction, exponent, rest := TailRead(s, |sign|, |sign| + |digits|);
    Grouped(sign, digits, fraction, exponent, rest);
    LiteralFrom(sign, digits, fraction, exponent, rest);
  }

  lemma Joined(s: Bytes, a: nat, n: nat)
    requires a + n <= |s|
    ensures s == s[..a] + (s[a..][..n] + s[a + n..]) && s[a..][n..] == s[a + n..]
  {
  }

  lemma TailRead(s: Bytes, sign: nat, at: nat) returns (fraction: Bytes, exponent: Bytes, rest: Bytes)
    requires sign <= 1 && sign < at <= |s| && ScanTail(s, sign, at).Token?
    requires at < |s| ==> !IsDigit(s[at])
    ensures s[at..] == fraction + (exponent + rest)
    ensures Fraction(fraction) && Exponent(exponent) && Behind(fraction, exponent, rest)
    ensures ScanTail(s, sign, at) == Token(sign, |s| - |rest|, fraction != [] || exponent != [])
  {
    hide FractionPart, ExponentPart, Fraction, Exponent, Behind;
    var behind := s[at..];
    var f := PartLength(FractionPart(behind));
    var tail := behind[f..];
    assert s[at + f..] == tail;
    var e := PartLength(ExponentPart(tail));
    FractionRead(behind);
    ExponentRead(tail);
    fraction, exponent, rest := behind[..f], tail[..e], tail[e..];
    assert tail == exponent + rest && behind == fraction + tail;
    assert behind != [] ==> behind[0] == s[at];
    TailBehind(behind, f, e);
  }

  lemma TailBehind(behind: Bytes, f: nat, e: nat)
    requires f <= |behind| && e <= |behind[f..]|
    requires var tail := behind[f..];
      && (behind != [] && f == 0 ==> !IsDigit(behind[0])) && (f < |behind| && f > 0 ==> !IsDigit(behind[f]))
      && (e < |tail| && e > 0 ==> !IsDigit(tail[e])) && (f == 0 ==> !Starts(behind, '.'))
      && (e == 0 ==> !Starts(tail, 'e') && !Starts(tail, 'E'))
    ensures Behind(behind[..f], behind[f..][..e], behind[f..][e..])
  {
    var tail := behind[f..];
    assert f < |behind| ==> tail[0] == behind[f];
    assert e < |tail| ==> tail[e..][0] == tail[e];
  }
}
