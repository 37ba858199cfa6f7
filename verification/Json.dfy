/** JSON values, their canonical text, and the grammar the decoder accepts. */
module Json {
  import opened Bytes
  import opened Ordering
  import opened Utf8

  /** Members are kept in bytewise key order. A real is kept as its literal. */
  datatype Json =
    | Null
    | Bool(b: bool)
    | Int(n: int)
    | Real(literal: Bytes)
    | String(text: Bytes)
    | Array(items: seq<Json>)
    | Object(members: seq<Member>)

  datatype Member = Member(key: Bytes, value: Json)

  datatype Code =
    | Syntax | TrailingGarbage | NotAnObject | InvalidLiteral | DepthExceeded | NumberOutOfRange
    | InvalidUtf8 | StringTooLong | DuplicateKey | DocumentTooLarge

  datatype Limits = Limits(maxBytes: nat, maxDepth: nat, maxStringBytes: nat, requireObject: bool)

  /** Real literals are judged and formatted by functions that nothing here depends on. */
  datatype Rules = Rules(limits: Limits, representable: Bytes -> bool, formatReal: Bytes -> Bytes)

  /** The outcome of reading something from the front of a text. */
  datatype Read<+T> = Got(value: T, rest: Bytes) | Bad(code: Code)

  const QUOTE: Byte := 0x22
  const BACKSLASH: Byte := 0x5C
  const COMMA: Byte := 0x2C
  const COLON: Byte := 0x3A
  const MINUS: Byte := 0x2D
  const ZERO: Byte := 0x30

  const MAX_INT: int := 0x7FFF_FFFF_FFFF_FFFF
  const MIN_INT: int := -0x8000_0000_0000_0000

  predicate IsDigit(b: Byte) {
    0x30 <= b <= 0x39
  }

  predicate IsSpace(b: Byte) {
    b == 0x20 || b == 0x09 || b == 0x0A || b == 0x0D
  }

  function SkipSpace(s: Bytes): (r: Bytes)
    ensures |r| <= |s|
    ensures r != [] ==> !IsSpace(r[0])
  {
    if s != [] && IsSpace(s[0]) then SkipSpace(s[1..]) else s
  }

  // ---------------------------------------------------------------------------
  // Strings
  // ---------------------------------------------------------------------------

  function HexDigit(n: nat): Byte
    requires n < 16
  {
    if n < 10 then 0x30 + n else 0x61 + (n - 10)
  }

  /** The value of a hex digit in either case, or 16. */
  function HexValue(b: Byte): (v: nat)
    ensures v <= 16
  {
    if 0x30 <= b <= 0x39 then b - 0x30
    else if 0x61 <= b <= 0x66 then b - 0x61 + 10
    else if 0x41 <= b <= 0x46 then b - 0x41 + 10
    else 16
  }

  /** The short escape letter of a control character, or 0. */
  function EscapeLetter(b: Byte): Byte {
    if b == 0x08 then 0x62
    else if b == 0x09 then 0x74
    else if b == 0x0A then 0x6E
    else if b == 0x0C then 0x66
    else if b == 0x0D then 0x72
    else 0
  }

  function Escaped(b: Byte): (r: Bytes)
    ensures 1 <= |r| <= 6
  {
    if b == QUOTE then [BACKSLASH, QUOTE]
    else if b == BACKSLASH then [BACKSLASH, BACKSLASH]
    else if b >= 0x20 then [b]
    else if EscapeLetter(b) != 0 then [BACKSLASH, EscapeLetter(b)]
    else [BACKSLASH, 0x75, 0x30, 0x30, HexDigit(b / 16), HexDigit(b % 16)]
  }

  function EscapedAll(s: Bytes): Bytes {
    if s == [] then [] else EscapedAll(s[..|s| - 1]) + Escaped(s[|s| - 1])
  }

  function Quoted(s: Bytes): Bytes {
    [QUOTE] + EscapedAll(s) + [QUOTE]
  }

  /** Four hex digits. */
  function ReadHex4(s: Bytes): (r: Read<nat>)
    ensures r.Got? ==> r.value < 0x10000 && |s| == |r.rest| + 4
  {
    if |s| < 4 then Bad(Syntax)
    else if HexValue(s[0]) == 16 || HexValue(s[1]) == 16 || HexValue(s[2]) == 16 || HexValue(s[3]) == 16 then Bad(Syntax)
    else Got(((HexValue(s[0]) * 16 + HexValue(s[1])) * 16 + HexValue(s[2])) * 16 + HexValue(s[3]), s[4..])
  }

  /** The rest of a unicode escape, behind the letter u. */
  function ReadUnicode(s: Bytes): (r: Read<nat>)
    ensures r.Got? ==> IsScalar(r.value) && |r.rest| + 4 <= |s|
    ensures r.Got? && r.value >= 0x10000 ==> |r.rest| + 10 == |s|
  {
    match ReadHex4(s)
    case Bad(code) => Bad(code)
    case Got(first, rest) =>
      if 0xD800 <= first <= 0xDBFF then
        if |rest| < 6 || rest[0] != BACKSLASH || rest[1] != 0x75 then Bad(Syntax)
        else
          match ReadHex4(rest[2..])
          case Bad(code) => Bad(code)
          case Got(second, after) =>
            if second < 0xDC00 || second > 0xDFFF then Bad(Syntax)
            else Got(0x10000 + (first - 0xD800) * 1024 + (second - 0xDC00), after)
      else if 0xDC00 <= first <= 0xDFFF then Bad(Syntax)
      else Got(first, rest)
  }

  /** One escape sequence, behind the backslash. */
  function ReadEscape(s: Bytes): (r: Read<Bytes>)
    ensures r.Got? ==> |r.rest| < |s| && |r.value| <= 4
  {
    if s == [] then Bad(Syntax)
    else
      var c := s[0];
      if c == QUOTE || c == BACKSLASH || c == 0x2F then Got([c], s[1..])
      else if c == 0x62 then Got([0x08], s[1..])
      else if c == 0x66 then Got([0x0C], s[1..])
      else if c == 0x6E then Got([0x0A], s[1..])
      else if c == 0x72 then Got([0x0D], s[1..])
      else if c == 0x74 then Got([0x09], s[1..])
      else if c == 0x75 then
        match ReadUnicode(s[1..])
        case Bad(code) => Bad(code)
        case Got(codepoint, rest) => Got(EncodeUtf8(codepoint), rest)
      else Bad(Syntax)
  }

  /** One character of a string: an escape or a UTF-8 sequence. */
  function ReadUnit(s: Bytes): (r: Read<Bytes>)
    requires s != []
    ensures r.Got? ==> |r.rest| < |s|
  {
    if s[0] < 0x20 then Bad(Syntax)
    else if s[0] == BACKSLASH then ReadEscape(s[1..])
    else
      var n := DecodeUtf8(s).length;
      if n == 0 then Bad(InvalidUtf8) else Got(s[..n], s[n..])
  }

  /** The characters up to the closing quote, appended to what was read before. */
  function ReadChars(s: Bytes, out: Bytes, limit: nat): (r: Read<Bytes>)
    ensures r.Got? ==> |r.rest| < |s|
    decreases |s|
  {
    if s == [] then Bad(Syntax)
    else if s[0] == QUOTE then Got(out, s[1..])
    else
      match ReadUnit(s)
      case Bad(code) => Bad(code)
      case Got(unit, rest) =>
        if |out + unit| > limit then Bad(StringTooLong) else ReadChars(rest, out + unit, limit)
  }

  function ReadString(s: Bytes, limit: nat): (r: Read<Bytes>)
    ensures r.Got? ==> |r.rest| < |s|
  {
    if s == [] || s[0] != QUOTE then Bad(Syntax) else ReadChars(s[1..], [], limit)
  }

  // ---------------------------------------------------------------------------
  // Numbers
  // ---------------------------------------------------------------------------

  /** Decimal digits without leading zeros. */
  function Decimal(n: nat): (s: Bytes)
    ensures s != [] && forall i :: 0 <= i < |s| ==> IsDigit(s[i])
    ensures s[0] == ZERO ==> n == 0 && |s| == 1
  {
    if n < 10 then [0x30 + n] else Decimal(n / 10) + [0x30 + n % 10]
  }

  function FormatInt(n: int): Bytes {
    if n < 0 then [MINUS] + Decimal(-n) else Decimal(n)
  }

  function Magnitude(digits: Bytes): nat
    requires forall i :: 0 <= i < |digits| ==> IsDigit(digits[i])
  {
    if digits == [] then 0 else 10 * Magnitude(digits[..|digits| - 1]) + DigitValue(digits[|digits| - 1])
  }

  function DigitValue(b: Byte): nat
    requires IsDigit(b)
  {
    b - 0x30
  }

  /** How many digits the text starts with. */
  function DigitCount(s: Bytes): (n: nat)
    ensures n <= |s|
    ensures forall i :: 0 <= i < n ==> IsDigit(s[i])
    ensures n < |s| ==> !IsDigit(s[n])
  {
    if s == [] || !IsDigit(s[0]) then 0 else 1 + DigitCount(s[1..])
  }

  /** The length of the integer part behind the sign; 0 when it is malformed. */
  function IntegerLength(s: Bytes): (n: nat)
    ensures n <= |s| && forall i :: 0 <= i < n ==> IsDigit(s[i])
  {
    if s == [] || !IsDigit(s[0]) then 0
    else if s[0] == ZERO then (if |s| > 1 && IsDigit(s[1]) then 0 else 1)
    else DigitCount(s)
  }

  /** The length of a fraction, with its point; none when there is no point, malformed when no digit follows. */
  datatype Part = Absent | Malformed | Present(length: nat)

  function FractionPart(s: Bytes): (p: Part)
    ensures p.Present? ==> 1 < p.length <= |s|
  {
    if s == [] || s[0] != 0x2E then Absent
    else if DigitCount(s[1..]) == 0 then Malformed
    else Present(1 + DigitCount(s[1..]))
  }

  function ExponentPart(s: Bytes): (p: Part)
    ensures p.Present? ==> 1 < p.length <= |s|
  {
    if s == [] || (s[0] != 0x65 && s[0] != 0x45) then Absent
    else
      var sign := if |s| > 1 && (s[1] == 0x2B || s[1] == MINUS) then 1 else 0;
      if DigitCount(s[1 + sign..]) == 0 then Malformed
      else Present(1 + sign + DigitCount(s[1 + sign..]))
  }

  function PartLength(p: Part): nat {
    if p.Present? then p.length else 0
  }

  /** A number literal at the start of a text: its sign, its length, and whether it is a real. */
  datatype Token = NoToken | Token(sign: nat, length: nat, isReal: bool)

  function ScanNumber(s: Bytes): (t: Token)
    ensures t.Token? ==> t.sign <= 1 && t.sign < t.length <= |s|
    ensures t.Token? && !t.isReal ==> forall i :: t.sign <= i < t.length ==> IsDigit(s[i])
  {
    var sign := if s != [] && s[0] == MINUS then 1 else 0;
    var digits := IntegerLength(s[sign..]);
    if digits == 0 then NoToken else ScanTail(s, sign, sign + digits)
  }

  /** What may follow the integer digits: a fraction and an exponent. */
  function ScanTail(s: Bytes, sign: nat, at: nat): (t: Token)
    requires sign <= 1 && sign < at <= |s|
    ensures t.Token? ==> t.sign == sign && at <= t.length <= |s|
    ensures t.Token? && !t.isReal ==> t.length == at
  {
    var fraction := FractionPart(s[at..]);
    if fraction.Malformed? then NoToken
    else
      var whole := at + PartLength(fraction);
      var exponent := ExponentPart(s[whole..]);
      if exponent.Malformed? then NoToken
      else Token(sign, whole + PartLength(exponent), fraction.Present? || exponent.Present?)
  }

  /** The value of an integer literal, if 64 bits hold it. */
  function IntegerValue(literal: Bytes, sign: nat): (r: Read<int>)
    requires sign <= |literal| && forall i :: sign <= i < |literal| ==> IsDigit(literal[i])
  {
    var magnitude: int := Magnitude(literal[sign..]);
    var n := if sign == 1 then -magnitude else magnitude;
    if MIN_INT <= n <= MAX_INT then Got(n, []) else Bad(NumberOutOfRange)
  }

  function ReadNumber(rules: Rules, s: Bytes): (r: Read<Json>)
    ensures r.Got? ==> |r.rest| < |s|
  {
    match ScanNumber(s)
    case NoToken => Bad(Syntax)
    case Token(sign, length, isReal) =>
      if length > 64 then Bad(NumberOutOfRange)
      else if isReal then
        if rules.representable(s[..length]) then Got(Real(s[..length]), s[length..]) else Bad(NumberOutOfRange)
      else
        match IntegerValue(s[..length], sign)
        case Bad(code) => Bad(code)
        case Got(n, _) => Got(Int(n), s[length..])
  }

  // ---------------------------------------------------------------------------
  // Values
  // ---------------------------------------------------------------------------

  /** The canonical text. */
  function Print(rules: Rules, v: Json): Bytes
    decreases v, 0
  {
    match v
    case Null => [0x6E, 0x75, 0x6C, 0x6C]
    case Bool(b) => if b then [0x74, 0x72, 0x75, 0x65] else [0x66, 0x61, 0x6C, 0x73, 0x65]
    case Int(n) => FormatInt(n)
    case Real(literal) => rules.formatReal(literal)
    case String(text) => Quoted(text)
    case Array(items) => [0x5B] + PrintItems(rules, items) + [0x5D]
    case Object(members) => [0x7B] + PrintMembers(rules, members) + [0x7D]
  }

  function PrintItems(rules: Rules, items: seq<Json>): Bytes
    decreases items, 1
  {
    if items == [] then []
    else Print(rules, items[0]) + (if |items| == 1 then [] else [COMMA] + PrintItems(rules, items[1..]))
  }

  function PrintMembers(rules: Rules, members: seq<Member>): Bytes
    decreases members, 1
  {
    if members == [] then []
    else Quoted(members[0].key) + [COLON] + Print(rules, members[0].value)
         + (if |members| == 1 then [] else [COMMA] + PrintMembers(rules, members[1..]))
  }

  function Text(s: Bytes): (t: string)
    ensures |t| == |s| && forall i :: 0 <= i < |s| ==> t[i] == s[i] as char
  {
    seq(|s|, i requires 0 <= i < |s| => s[i] as char)
  }

  /** Keys compare bytewise. */
  predicate KeyLess(a: Bytes, b: Bytes) {
    TextLess(Text(a), Text(b))
  }

  predicate HasKey(members: seq<Member>, key: Bytes) {
    exists m :: m in members && m.key == key
  }

  /** Insertion at the place the key order gives. */
  function InsertMember(members: seq<Member>, m: Member): (out: seq<Member>)
    ensures |out| == |members| + 1
  {
    if members == [] || KeyLess(m.key, members[0].key) then [m] + members
    else [members[0]] + InsertMember(members[1..], m)
  }

  function ReadLiteral(s: Bytes, token: Bytes, v: Json): (r: Read<Json>)
    requires token != []
    ensures r.Got? ==> |r.rest| < |s|
  {
    if |s| < |token| || s[..|token|] != token then Bad(InvalidLiteral) else Got(v, s[|token|..])
  }

  /** A depth bound of zero counts as one. */
  function MaxDepth(limits: Limits): nat {
    if limits.maxDepth == 0 then 1 else limits.maxDepth
  }

  function ReadValue(rules: Rules, s: Bytes, depth: nat): (r: Read<Json>)
    ensures r.Got? ==> |r.rest| < |s|
    decreases |s|, 0
  {
    if s == [] then Bad(Syntax)
    else if depth > MaxDepth(rules.limits) then Bad(DepthExceeded)
    else if s[0] == 0x7B then ObjectBody(rules, s[1..], depth)
    else if s[0] == 0x5B then ArrayBody(rules, s[1..], depth)
    else if s[0] == QUOTE then
      match ReadString(s, rules.limits.maxStringBytes)
      case Bad(code) => Bad(code)
      case Got(text, rest) => Got(String(text), rest)
    else if s[0] == 0x74 then ReadLiteral(s, [0x74, 0x72, 0x75, 0x65], Bool(true))
    else if s[0] == 0x66 then ReadLiteral(s, [0x66, 0x61, 0x6C, 0x73, 0x65], Bool(false))
    else if s[0] == 0x6E then ReadLiteral(s, [0x6E, 0x75, 0x6C, 0x6C], Null)
    else if s[0] == MINUS || IsDigit(s[0]) then ReadNumber(rules, s)
    else Bad(Syntax)
  }

  /** An array behind its opening bracket. */
  function ArrayBody(rules: Rules, s: Bytes, depth: nat): (r: Read<Json>)
    ensures r.Got? ==> |r.rest| < |s|
    decreases |s|, 3
  {
    var t := SkipSpace(s);
    if t != [] && t[0] == 0x5D then Got(Array([]), t[1..]) else ReadItems(rules, t, depth, [])
  }

  /** The items of an array up to its closing bracket. */
  function ReadItems(rules: Rules, s: Bytes, depth: nat, items: seq<Json>): (r: Read<Json>)
    ensures r.Got? ==> |r.rest| < |s|
    decreases |s|, 2
  {
    match ReadValue(rules, SkipSpace(s), depth + 1)
    case Bad(code) => Bad(code)
    case Got(v, rest) =>
      var t := SkipSpace(rest);
      if t == [] then Bad(Syntax)
      else if t[0] == COMMA then ReadItems(rules, t[1..], depth, items + [v])
      else if t[0] == 0x5D then Got(Array(items + [v]), t[1..])
      else Bad(Syntax)
  }

  /** An object behind its opening brace. */
  function ObjectBody(rules: Rules, s: Bytes, depth: nat): (r: Read<Json>)
    ensures r.Got? ==> |r.rest| < |s|
    decreases |s|, 3
  {
    var t := SkipSpace(s);
    if t != [] && t[0] == 0x7D then Got(Object([]), t[1..]) else ReadMembers(rules, t, depth, [])
  }

  /** One member: key, colon, value. */
  function ReadMember(rules: Rules, s: Bytes, depth: nat): (r: Read<Member>)
    ensures r.Got? ==> |r.rest| < |s|
    decreases |s|, 1
  {
    match ReadString(SkipSpace(s), rules.limits.maxStringBytes)
    case Bad(code) => Bad(code)
    case Got(key, afterKey) =>
      var t := SkipSpace(afterKey);
      if t == [] || t[0] != COLON then Bad(Syntax)
      else
        match ReadValue(rules, SkipSpace(t[1..]), depth + 1)
        case Bad(code) => Bad(code)
        case Got(v, rest) => Got(Member(key, v), rest)
  }

  /** The members of an object up to its closing brace; a repeated key is refused after its value was read. */
  function ReadMembers(rules: Rules, s: Bytes, depth: nat, members: seq<Member>): (r: Read<Json>)
    ensures r.Got? ==> |r.rest| < |s|
    decreases |s|, 2
  {
    match ReadMember(rules, s, depth)
    case Bad(code) => Bad(code)
    case Got(m, rest) =>
      if HasKey(members, m.key) then Bad(DuplicateKey)
      else
        var next := InsertMember(members, m);
        var u := SkipSpace(rest);
        if u == [] then Bad(Syntax)
        else if u[0] == COMMA then ReadMembers(rules, u[1..], depth, next)
        else if u[0] == 0x7D then Got(Object(next), u[1..])
        else Bad(Syntax)
  }

  /** A whole document: one value, surrounded by nothing but space. */
  function ReadDocument(rules: Rules, text: Bytes): (r: Read<Json>)
    ensures r.Got? ==> r.rest == []
  {
    if |text| > rules.limits.maxBytes then Bad(DocumentTooLarge)
    else
      var s := SkipSpace(text);
      if s == [] then Bad(Syntax)
      else
        match ReadValue(rules, s, 0)
        case Bad(code) => Bad(code)
        case Got(v, rest) =>
          if SkipSpace(rest) != [] then Bad(TrailingGarbage)
          else if rules.limits.requireObject && !v.Object? then Bad(NotAnObject)
          else Got(v, [])
  }
}
