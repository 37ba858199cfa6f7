/** The texts of JSON as trees, and which of them the decoder accepts: section 2 of RFC 8259. */
module JsonSyntax {
  import opened Bytes
  import opened Utf8
  import opened Json
  import opened JsonGrammar
  import opened JsonRoundTrip

  // ---------------------------------------------------------------------------
  // Trees
  // ---------------------------------------------------------------------------

  /** One character of a string, as it is written; c is the code point it stands for. */
  datatype Unit =
    | Plain(c: nat)
    | Short(letter: Byte, c: nat)
    | Hex(hex: Bytes, c: nat)
    | Pair(high: Bytes, low: Bytes, c: nat)

  /** A text with everything that its value does not tell: white space, escapes, the spelling of numbers, the order of
      members. */
  datatype Tree =
    | NullTree
    | TrueTree
    | FalseTree
    | NumberTree(sign: Bytes, digits: Bytes, fraction: Bytes, exponent: Bytes)
    | StringTree(units: seq<Unit>)
    | ArrayTree(blank: Bytes, items: seq<ItemTree>)
    | ObjectTree(blank: Bytes, members: seq<MemberTree>)

  datatype ItemTree = ItemTree(left: Bytes, tree: Tree, right: Bytes)

  datatype MemberTree = MemberTree(left: Bytes, key: seq<Unit>, middle: Bytes, space: Bytes, tree: Tree, right: Bytes)

  function Ascii(s: string): (r: Bytes)
    ensures |r| == |s|
  {
    seq(|s|, i requires 0 <= i < |s| => if s[i] as int < 128 then s[i] as int else 0)
  }

  function SpellUnit(u: Unit): Bytes {
    match u
    case Plain(c) => if c <= 0x10FFFF then EncodeUtf8(c) else []
    case Short(letter, _) => Ascii("\\") + [letter]
    case Hex(hex, _) => Ascii("\\u") + hex
    case Pair(high, low, _) => Ascii("\\u") + high + Ascii("\\u") + low
  }

  function SpellUnits(us: seq<Unit>): Bytes {
    if us == [] then [] else SpellUnit(us[0]) + SpellUnits(us[1..])
  }

  function SpellString(us: seq<Unit>): Bytes {
    Ascii("\"") + SpellUnits(us) + Ascii("\"")
  }

  function Spell(t: Tree): Bytes
    decreases t, 0
  {
    match t
    case NullTree => Ascii("null")
    case TrueTree => Ascii("true")
    case FalseTree => Ascii("false")
    case NumberTree(sign, digits, fraction, exponent) => sign + digits + fraction + exponent
    case StringTree(units) => SpellString(units)
    case ArrayTree(blank, items) => Ascii("[") + (if items == [] then blank else SpellItems(items)) + Ascii("]")
    case ObjectTree(blank, members) => Ascii("{") + (if members == [] then blank else SpellMembers(members)) + Ascii("}")
  }

  function SpellItems(items: seq<ItemTree>): Bytes
    decreases items, 1
  {
    if items == [] then []
    else items[0].left + Spell(items[0].tree) + items[0].right
         + (if |items| == 1 then [] else Ascii(",") + SpellItems(items[1..]))
  }

  function SpellMembers(members: seq<MemberTree>): Bytes
    decreases members, 1
  {
    if members == [] then []
    else
      var m := members[0];
      m.left + SpellString(m.key) + m.middle + Ascii(":") + m.space + Spell(m.tree) + m.right
      + (if |members| == 1 then [] else Ascii(",") + SpellMembers(members[1..]))
  }

  // ---------------------------------------------------------------------------
  // Meaning
  // ---------------------------------------------------------------------------

  function Encoded(c: nat): Bytes {
    if c <= 0x10FFFF then EncodeUtf8(c) else []
  }

  /** The code points of a string, in UTF-8. */
  function Meaning(us: seq<Unit>): Bytes {
    if us == [] then [] else Encoded(us[0].c) + Meaning(us[1..])
  }

  function Number(digits: Bytes): int {
    if digits == [] then 0
    else
      var last: int := digits[|digits| - 1];
      10 * Number(digits[..|digits| - 1]) + last - 0x30
  }

  function Signed(sign: Bytes, digits: Bytes): int {
    if sign == [] then Number(digits) else -Number(digits)
  }

  function Value(t: Tree): Json
    decreases t, 0
  {
    match t
    case NullTree => Null
    case TrueTree => Bool(true)
    case FalseTree => Bool(false)
    case NumberTree(sign, digits, fraction, exponent) =>
      if fraction == [] && exponent == [] then Int(Signed(sign, digits))
      else Real(sign + digits + fraction + exponent)
    case StringTree(units) => String(Meaning(units))
    case ArrayTree(_, items) => Array(Values(items))
    case ObjectTree(_, members) => Object(Gather(members, []))
  }

  function Values(items: seq<ItemTree>): seq<Json>
    decreases items, 1
  {
    if items == [] then [] else [Value(items[0].tree)] + Values(items[1..])
  }

  /** The members in the order of their keys. */
  function Gather(members: seq<MemberTree>, acc: seq<Member>): seq<Member>
    decreases members, 1
  {
    if members == [] then acc
    else Gather(members[1..], InsertMember(acc, Member(Meaning(members[0].key), Value(members[0].tree))))
  }

  // ---------------------------------------------------------------------------
  // Which trees are texts within the bounds
  // ---------------------------------------------------------------------------

  ghost predicate Blank(s: Bytes) {
    forall i :: 0 <= i < |s| ==> IsBlank(s[i] as char)
  }

  ghost predicate UnitOk(u: Unit) {
    match u
    case Plain(c) => IsScalar(c) && c >= 0x20 && c != 0x22 && c != 0x5C
    case Short(letter, c) => c < 256 && ShortEscape(letter as char, c)
    case Hex(hex, c) => IsScalar(c) && Spells(hex, c)
    case Pair(high, low, c) =>
      0x10000 <= c <= 0x10FFFF && Spells(high, 0xD800 + (c - 0x10000) / 1024) && Spells(low, 0xDC00 + (c - 0x10000) % 1024)
  }

  ghost predicate UnitsOk(us: seq<Unit>) {
    forall i :: 0 <= i < |us| ==> UnitOk(us[i])
  }

  ghost predicate StringOk(limits: Limits, us: seq<Unit>) {
    UnitsOk(us) && |Meaning(us)| <= limits.maxStringBytes
  }

  ghost predicate NumberOk(rules: Rules, sign: Bytes, digits: Bytes, fraction: Bytes, exponent: Bytes) {
    var literal := sign + digits + fraction + exponent;
    && Literal(sign, digits, fraction, exponent, []) && |literal| <= 64
    && if fraction == [] && exponent == [] then -0x8000_0000_0000_0000 <= Signed(sign, digits) <= 0x7FFF_FFFF_FFFF_FFFF
       else rules.representable(literal)
  }

  ghost predicate DistinctKeys(members: seq<MemberTree>) {
    forall i, j :: 0 <= i < j < |members| ==> Meaning(members[i].key) != Meaning(members[j].key)
  }

  ghost predicate TreeOk(rules: Rules, t: Tree, depth: nat)
    decreases t, 0
  {
    && depth <= MaxDepth(rules.limits)
    && match t
       case NullTree => true
       case TrueTree => true
       case FalseTree => true
       case NumberTree(sign, digits, fraction, exponent) => NumberOk(rules, sign, digits, fraction, exponent)
       case StringTree(units) => StringOk(rules.limits, units)
       case ArrayTree(blank, items) => Blank(blank) && TreesOk(rules, items, depth + 1)
       case ObjectTree(blank, members) =>
         Blank(blank) && MembersOk(rules, members, depth + 1) && DistinctKeys(members)
  }

  ghost predicate TreesOk(rules: Rules, items: seq<ItemTree>, depth: nat)
    decreases items, 1
  {
    items != [] ==>
      && Blank(items[0].left) && TreeOk(rules, items[0].tree, depth) && Blank(items[0].right)
      && TreesOk(rules, items[1..], depth)
  }

  ghost predicate MembersOk(rules: Rules, members: seq<MemberTree>, depth: nat)
    decreases members, 1
  {
    members != [] ==>
      var m := members[0];
      && Blank(m.left) && StringOk(rules.limits, m.key) && Blank(m.middle) && Blank(m.space)
      && TreeOk(rules, m.tree, depth) && Blank(m.right)
      && MembersOk(rules, members[1..], depth)
  }

  // ---------------------------------------------------------------------------
  // Strings
  // ---------------------------------------------------------------------------

  lemma PlainAccepted(c: nat, rest: Bytes)
    requires UnitOk(Plain(c))
    ensures var s := EncodeUtf8(c) + rest;
      s != [] && s[0] != QUOTE && ReadUnit(s) == Got(EncodeUtf8(c), rest)
  {
    DecodeEncoded(c, rest);
    var s, n := EncodeUtf8(c) + rest, |EncodeUtf8(c)|;
    assert s[..n] == EncodeUtf8(c) && s[n..] == rest;
    PlainFirst(c, rest);
  }

  lemma PlainFirst(c: nat, rest: Bytes)
    requires UnitOk(Plain(c))
    ensures var b := (EncodeUtf8(c) + rest)[0]; b >= 0x20 && b != QUOTE && b != BACKSLASH
  {
  }

  function Escape(u: Unit): Bytes
    requires !u.Plain?
  {
    match u
    case Short(letter, _) => [letter]
    case Hex(hex, _) => [LETTER_U] + hex
    case Pair(high, low, _) => [LETTER_U] + high + [BACKSLASH, LETTER_U] + low
  }

  lemma EscapeSpelled(u: Unit, rest: Bytes)
    requires !u.Plain?
    ensures var s := SpellUnit(u) + rest; s != [] && s[0] == BACKSLASH && s[1..] == Escape(u) + rest
  {
    EscapeJoined(u);
    hide SpellUnit, Escape;
    assert (([BACKSLASH] + Escape(u)) + rest)[1..] == Escape(u) + rest;
  }

  lemma EscapeJoined(u: Unit)
    requires !u.Plain?
    ensures SpellUnit(u) == [BACKSLASH] + Escape(u)
  {
    EscapeMarks();
    hide Ascii;
    match u
    case Short(letter, _) =>
    case Hex(hex, _) => assert [BACKSLASH, LETTER_U] + hex == [BACKSLASH] + ([LETTER_U] + hex);
    case Pair(high, low, _) =>
      var tail := [BACKSLASH, LETTER_U] + low;
      assert [BACKSLASH, LETTER_U] + high + [BACKSLASH, LETTER_U] + low == [BACKSLASH, LETTER_U] + high + tail;
      assert [BACKSLASH, LETTER_U] + high + tail == [BACKSLASH] + ([LETTER_U] + high + tail);
      assert [LETTER_U] + high + [BACKSLASH, LETTER_U] + low == [LETTER_U] + high + tail;
  }

  lemma EscapeMarks()
    ensures Ascii("\\") == [BACKSLASH] && Ascii("\\u") == [BACKSLASH, LETTER_U]
  {
  }

  lemma EscapeAccepted(u: Unit, rest: Bytes)
    requires UnitOk(u) && !u.Plain?
    ensures var s := SpellUnit(u) + rest;
      s != [] && s[0] == BACKSLASH && ReadEscape(s[1..]) == Got(EncodeUtf8(u.c), rest)
  {
    hide Spells, ReadEscape, EncodeUtf8, SpellUnit, ShortEscape;
    EscapeSpelled(u, rest);
    match u
    case Short(letter, c) =>
      ShortIsAscii(letter, c);
      ShortEscapesAre(letter, rest);
    case Hex(hex, c) => PlainEscape(hex, c, rest);
    case Pair(high, low, c) => PairEscape(high, low, c, rest);
  }

  lemma ShortIsAscii(letter: Byte, c: Byte)
    requires ShortEscape(letter as char, c)
    ensures letter != LETTER_U && EncodeUtf8(c) == [c]
  {
  }

  lemma UnitAccepted(u: Unit, rest: Bytes)
    requires UnitOk(u)
    ensures u.c <= 0x10FFFF
    ensures var s := SpellUnit(u) + rest;
      s != [] && s[0] != QUOTE && ReadUnit(s) == Got(EncodeUtf8(u.c), rest)
  {
    hide ReadEscape, EncodeUtf8, Spells;
    if u.Plain? {
      PlainAccepted(u.c, rest);
    } else {
      EscapeAccepted(u, rest);
    }
  }

  lemma {:induction false} CharsAccepted(us: seq<Unit>, rest: Bytes, out: Bytes, limit: nat)
    requires UnitsOk(us) && |out| + |Meaning(us)| <= limit
    ensures ReadChars(SpellUnits(us) + ([QUOTE] + rest), out, limit) == Got(out + Meaning(us), rest)
    decreases |us|
  {
    hide ReadUnit, EncodeUtf8, SpellUnit, UnitOk;
    if us == [] {
      assert SpellUnits(us) + ([QUOTE] + rest) == [QUOTE] + rest && out + [] == out;
      CharsEnd(rest, out, limit);
    } else {
      hide ReadChars;
      var u, tail := us[0], SpellUnits(us[1..]) + ([QUOTE] + rest);
      assert SpellUnits(us) + ([QUOTE] + rest) == SpellUnit(u) + tail;
      UnitAccepted(u, tail);
      CharsStep(SpellUnit(u) + tail, out, limit, EncodeUtf8(u.c), tail);
      CharsAccepted(us[1..], rest, out + EncodeUtf8(u.c), limit);
      assert (out + EncodeUtf8(u.c)) + Meaning(us[1..]) == out + Meaning(us);
    }
  }

  lemma StringAccepted(us: seq<Unit>, rest: Bytes, limit: nat)
    requires UnitsOk(us) && |Meaning(us)| <= limit
    ensures ReadString(SpellString(us) + rest, limit) == Got(Meaning(us), rest)
  {
    hide ReadChars, SpellUnits, Meaning, UnitsOk;
    CharsAccepted(us, rest, [], limit);
    assert (SpellString(us) + rest)[1..] == SpellUnits(us) + ([QUOTE] + rest);
    assert [] + Meaning(us) == Meaning(us);
  }

  lemma PlainRead(s: Bytes) returns (c: nat)
    requires s != [] && s[0] >= 0x20 && s[0] != QUOTE && s[0] != BACKSLASH && DecodeUtf8(s).length > 0
    ensures UnitOk(Plain(c)) && EncodeUtf8(c) == s[..DecodeUtf8(s).length]
  {
    EncodeDecoded(s);
    c := DecodeUtf8(s).codepoint;
    if c < 0x80 {
      assert EncodeUtf8(c)[0] == s[0];
    }
  }

  lemma EscapeRead(s: Bytes) returns (u: Unit)
    requires ReadEscape(s).Got?
    ensures UnitOk(u) && !u.Plain? && [BACKSLASH] + s == SpellUnit(u) + ReadEscape(s).rest
    ensures u.c <= 0x10FFFF && ReadEscape(s).value == EncodeUtf8(u.c)
  {
    hide Spells, EncodeUtf8, ReadUnicode;
    var r := ReadEscape(s);
    if s[0] != LETTER_U {
      var c := r.value[0];
      u := Short(s[0], c);
      ShortIsAscii(s[0], c);
      assert s == [s[0]] + s[1..];
    } else {
      u := UnicodeRead(s[1..]);
      assert s == [LETTER_U] + s[1..];
    }
  }

  lemma UnicodeRead(s: Bytes) returns (u: Unit)
    requires ReadUnicode(s).Got?
    ensures UnitOk(u) && (u.Hex? || u.Pair?) && [BACKSLASH, LETTER_U] + s == SpellUnit(u) + ReadUnicode(s).rest
    ensures u.c == ReadUnicode(s).value
  {
    hide Spells, ReadHex4;
    var first := ReadHex4(s);
    HexRead(s);
    SpellsFour(s[..4], first.value);
    assert s == s[..4] + s[4..];
    HexRest(s);
    if IsScalar(first.value) {
      u := Hex(s[..4], first.value);
    } else {
      var t := first.rest[2..];
      var second := ReadHex4(t);
      HexRead(t);
      HexRest(t);
      var c := 0x10000 + (first.value - 0xD800) * 1024 + (second.value - 0xDC00);
      u := Pair(s[..4], t[..4], c);
      assert s[4..] == [BACKSLASH, LETTER_U] + (t[..4] + t[4..]);
    }
  }

  lemma HexRest(s: Bytes)
    requires ReadHex4(s).Got?
    ensures |s| >= 4 && ReadHex4(s).rest == s[4..]
  {
  }

  lemma UnitRead(s: Bytes) returns (u: Unit)
    requires s != [] && s[0] != QUOTE && ReadUnit(s).Got?
    ensures UnitOk(u) && u.c <= 0x10FFFF && ReadUnit(s) == Got(EncodeUtf8(u.c), ReadUnit(s).rest)
    ensures s == SpellUnit(u) + ReadUnit(s).rest
  {
    hide ReadEscape, EncodeUtf8, Spells;
    if s[0] == BACKSLASH {
      u := EscapeRead(s[1..]);
      assert s == [BACKSLASH] + s[1..];
    } else {
      var c := PlainRead(s);
      u := Plain(c);
    }
  }

  lemma {:induction false} CharsRead(s: Bytes, out: Bytes, limit: nat) returns (us: seq<Unit>)
    requires |out| <= limit && ReadChars(s, out, limit).Got?
    ensures var r := ReadChars(s, out, limit);
      && UnitsOk(us) && s == SpellUnits(us) + ([QUOTE] + r.rest)
      && r.value == out + Meaning(us) && |r.value| <= limit
    decreases |s|
  {
    hide ReadUnit, EncodeUtf8, SpellUnit, UnitOk;
    us := [];
    if s[0] == QUOTE {
      assert s == [QUOTE] + s[1..] && out + [] == out;
    } else {
      var u := UnitRead(s);
      var unit := ReadUnit(s);
      var more := CharsRead(unit.rest, out + unit.value, limit);
      us := [u] + more;
      assert us[1..] == more;
      assert (out + unit.value) + Meaning(more) == out + Meaning(us);
    }
  }

  lemma StringRead(s: Bytes, limit: nat) returns (us: seq<Unit>)
    requires ReadString(s, limit).Got?
    ensures UnitsOk(us) && |Meaning(us)| <= limit
    ensures s == SpellString(us) + ReadString(s, limit).rest && ReadString(s, limit).value == Meaning(us)
  {
    hide ReadChars, SpellUnits, Meaning, UnitsOk;
    us := CharsRead(s[1..], [], limit);
    assert [] + Meaning(us) == Meaning(us);
    assert s == [QUOTE] + s[1..];
    Quoting(SpellUnits(us), ReadString(s, limit).rest);
  }

  lemma Quoting(a: Bytes, rest: Bytes)
    ensures [QUOTE] + (a + ([QUOTE] + rest)) == Ascii("\"") + a + Ascii("\"") + rest
  {
  }

  // ---------------------------------------------------------------------------
  // Numbers
  // ---------------------------------------------------------------------------

  /** What may follow a value: nothing, white space, or a separator. */
  ghost predicate Closed(rest: Bytes) {
    rest != [] ==> var c := rest[0] as char; IsBlank(c) || c == ',' || c == ']' || c == '}'
  }

  lemma {:induction false} NumberIsMagnitude(digits: Bytes)
    requires forall i :: 0 <= i < |digits| ==> IsDigit(digits[i])
    ensures Number(digits) == Magnitude(digits)
  {
    if digits != [] {
      NumberIsMagnitude(digits[..|digits| - 1]);
    }
  }

  /** The reading of a literal that was scanned. */
  lemma NumberValue(rules: Rules, sign: Bytes, digits: Bytes, fraction: Bytes, exponent: Bytes, rest: Bytes)
    requires Literal(sign, digits, fraction, exponent, rest)
    ensures var literal := sign + digits + fraction + exponent;
      ReadNumber(rules, literal + rest)
        == if |literal| > 64 then Bad(NumberOutOfRange)
           else if fraction == [] && exponent == [] then
             if MIN_INT <= Signed(sign, digits) <= MAX_INT then Got(Int(Signed(sign, digits)), rest) else Bad(NumberOutOfRange)
           else if rules.representable(literal) then Got(Real(literal), rest) else Bad(NumberOutOfRange)
  {
    hide ScanNumber, Fraction, Exponent, Magnitude, Number, Behind;
    var literal := sign + digits + fraction + exponent;
    var s := literal + rest;
    LiteralAccepted(sign, digits, fraction, exponent, rest);
    assert s[..|literal|] == literal && s[|literal|..] == rest;
    if fraction == [] && exponent == [] {
      assert literal[|sign|..] == digits;
      NumberIsMagnitude(digits);
    }
  }

  lemma StillLiteral(sign: Bytes, digits: Bytes, fraction: Bytes, exponent: Bytes, rest: Bytes)
    requires Closed(rest)
    ensures Literal(sign, digits, fraction, exponent, []) ==> Literal(sign, digits, fraction, exponent, rest)
  {
  }

  lemma NumberStarts(sign: Bytes, digits: Bytes, fraction: Bytes, exponent: Bytes, rest: Bytes)
    requires Literal(sign, digits, fraction, exponent, rest)
    ensures var s := sign + digits + fraction + exponent; s != [] && (s[0] == MINUS || IsDigit(s[0]))
    ensures Literal(sign, digits, fraction, exponent, [])
  {
    hide Fraction, Exponent;
    var s := sign + digits + fraction + exponent;
    assert s[0] == if sign == [] then digits[0] else sign[0];
  }

  lemma NumberAccepted(rules: Rules, t: Tree, rest: Bytes)
    requires t.NumberTree? && NumberOk(rules, t.sign, t.digits, t.fraction, t.exponent) && Closed(rest)
    ensures Spell(t) != [] && (Spell(t)[0] == MINUS || IsDigit(Spell(t)[0]))
    ensures ReadNumber(rules, Spell(t) + rest) == Got(Value(t), rest)
  {
    hide ReadNumber, Literal, Number;
    StillLiteral(t.sign, t.digits, t.fraction, t.exponent, rest);
    NumberStarts(t.sign, t.digits, t.fraction, t.exponent, rest);
    NumberValue(rules, t.sign, t.digits, t.fraction, t.exponent, rest);
  }

  lemma NumberRead(rules: Rules, s: Bytes) returns (t: Tree)
    requires ReadNumber(rules, s).Got?
    ensures t.NumberTree? && NumberOk(rules, t.sign, t.digits, t.fraction, t.exponent)
    ensures s == Spell(t) + ReadNumber(rules, s).rest && ReadNumber(rules, s).value == Value(t)
  {
    hide Literal, Number, ScanNumber, IntegerValue;
    var sign, digits, fraction, exponent, rest := LiteralRead(s);
    NumberStarts(sign, digits, fraction, exponent, rest);
    NumberValue(rules, sign, digits, fraction, exponent, rest);
    hide ReadNumber;
    t := NumberTree(sign, digits, fraction, exponent);
  }

  // ---------------------------------------------------------------------------
  // White space
  // ---------------------------------------------------------------------------

  lemma {:induction false} SkipBlank(blank: Bytes, rest: Bytes)
    requires Blank(blank) && (rest == [] || !IsBlank(rest[0] as char))
    ensures SkipSpace(blank + rest) == rest
  {
    if blank == [] {
      assert blank + rest == rest;
    } else {
      assert (blank + rest)[1..] == blank[1..] + rest;
      SkipBlank(blank[1..], rest);
    }
  }

  lemma Skipped(s: Bytes) returns (blank: Bytes)
    ensures Blank(blank) && s == blank + SkipSpace(s) && (SkipSpace(s) == [] || !IsBlank(SkipSpace(s)[0] as char))
  {
    hide SkipSpace;
    var k := SpaceIs(s);
    blank := s[..k];
  }

  // ---------------------------------------------------------------------------
  // Every text within the bounds is accepted
  // ---------------------------------------------------------------------------

  predicate Opens(s: Bytes) {
    s != [] && !IsSpace(s[0]) && s[0] != 0x5D && s[0] != 0x7D
  }

  lemma TreeOpens(rules: Rules, t: Tree, depth: nat)
    requires TreeOk(rules, t, depth)
    ensures Opens(Spell(t))
  {
    hide SpellItems, SpellMembers, SpellUnits, TreesOk, MembersOk, Fraction, Exponent, Number;
    if t.NumberTree? {
      NumberStarts(t.sign, t.digits, t.fraction, t.exponent, []);
    }
  }

  lemma BlankIs(b: Byte)
    ensures IsSpace(b) <==> IsBlank(b as char)
  {
  }

  lemma SkipTwice(s: Bytes)
    ensures SkipSpace(SkipSpace(s)) == SkipSpace(s)
  {
    SkipNone(SkipSpace(s));
  }

  /** A separator or a closing bracket behind white space. */
  lemma Separated(right: Bytes, mark: Byte, more: Bytes)
    requires Blank(right) && (mark == COMMA || mark == 0x5D || mark == 0x7D)
    ensures SkipSpace(right + ([mark] + more)) == [mark] + more && ([mark] + more)[1..] == more
    ensures Closed(right + ([mark] + more))
  {
    SkipBlank(right, [mark] + more);
    if right != [] {
      assert (right + ([mark] + more))[0] == right[0];
    }
  }

  lemma OneItem(rules: Rules, left: Bytes, body: Bytes, v: Json, tail: Bytes, mark: Byte, more: Bytes, depth: nat, acc: seq<Json>)
    requires Blank(left) && Opens(body) && SkipSpace(tail) == [mark] + more && (mark == COMMA || mark == 0x5D)
    requires ReadValue(rules, body + tail, depth + 1) == Got(v, tail)
    ensures ReadItems(rules, left + (body + tail), depth, acc)
         == if mark == COMMA then ReadItems(rules, more, depth, acc + [v]) else Got(Array(acc + [v]), more)
  {
    hide ReadValue, SkipSpace, Blank;
    BlankIs(body[0]);
    SkipBlank(left, body + tail);
    assert ([mark] + more)[1..] == more;
  }

  /** What stands behind an item or a member: the next ones, then the closing bracket. */
  function Following(last: bool, more: Bytes): Bytes {
    if last then [] else [COMMA] + more
  }

  lemma FollowingClosed(last: bool, more: Bytes, close: Bytes)
    ensures Following(last, more) + close == if last then close else [COMMA] + (more + close)
  {
    if last {
      assert [] + close == close;
    }
  }

  lemma ItemsStepSpelled(items: seq<ItemTree>)
    requires items != []
    ensures var x := items[0];
      SpellItems(items) == x.left + Spell(x.tree) + x.right + Following(|items| == 1, SpellItems(items[1..]))
  {
    hide Spell;
    assert Ascii(",") == [COMMA];
  }

  lemma Grouped3(a: Bytes, b: Bytes, c: Bytes, more: Bytes, close: Bytes)
    ensures a + b + c + more + close == a + (b + (c + (more + close)))
  {
  }

  lemma ItemsSpelled(items: seq<ItemTree>, rest: Bytes)
    requires items != []
    ensures var x := items[0];
      var tail := if |items| == 1 then [0x5D] + rest else [COMMA] + (SpellItems(items[1..]) + ([0x5D] + rest));
      SpellItems(items) + ([0x5D] + rest) == x.left + (Spell(x.tree) + (x.right + tail))
  {
    hide *;
    var x, more := items[0], SpellItems(items[1..]);
    ItemsStepSpelled(items);
    Grouped3(x.left, Spell(x.tree), x.right, Following(|items| == 1, more), [0x5D] + rest);
    FollowingClosed(|items| == 1, more, [0x5D] + rest);
  }

  lemma Marks()
    ensures COMMA == 0x2C && COLON == 0x3A
  {
  }

  lemma TreesStep(rules: Rules, items: seq<ItemTree>, depth: nat)
    requires items != [] && TreesOk(rules, items, depth)
    ensures Blank(items[0].left) && TreeOk(rules, items[0].tree, depth) && Blank(items[0].right)
    ensures TreesOk(rules, items[1..], depth)
  {
  }

  lemma ValuesCons(items: seq<ItemTree>)
    requires items != []
    ensures Values(items) == [Value(items[0].tree)] + Values(items[1..])
  {
  }

  lemma NoValues()
    ensures Values([]) == [] && Gather([], []) == []
  {
  }

  lemma {:induction false} ItemsAccepted(rules: Rules, items: seq<ItemTree>, depth: nat, acc: seq<Json>, rest: Bytes)
    requires items != [] && TreesOk(rules, items, depth + 1)
    ensures ReadItems(rules, SpellItems(items) + ([0x5D] + rest), depth, acc) == Got(Array(acc + Values(items)), rest)
    decreases items, 1
  {
    hide *;
    var x, last := items[0], |items| == 1;
    var more := if last then rest else SpellItems(items[1..]) + ([0x5D] + rest);
    var mark: Byte := if last then 0x5D else COMMA;
    var tail := x.right + ([mark] + more);
    Marks();
    TreesStep(rules, items, depth + 1);
    ValuesCons(items);
    ItemsSpelled(items, rest);
    TreeOpens(rules, x.tree, depth + 1);
    Separated(x.right, mark, more);
    TreeAccepted(rules, x.tree, depth + 1, tail);
    OneItem(rules, x.left, Spell(x.tree), Value(x.tree), tail, mark, more, depth, acc);
    if last {
      NoValues();
      assert items[1..] == [] && Values(items) == [Value(x.tree)];
    } else {
      ItemsAccepted(rules, items[1..], depth, acc + [Value(x.tree)], rest);
      assert (acc + [Value(x.tree)]) + Values(items[1..]) == acc + Values(items);
    }
  }

  lemma ArrayAccepted(rules: Rules, t: Tree, depth: nat, rest: Bytes)
    requires t.ArrayTree? && depth <= MaxDepth(rules.limits) && Blank(t.blank)
    requires t.items != [] ==>
      && ReadItems(rules, SpellItems(t.items) + ([0x5D] + rest), depth, []) == Got(Array([] + Values(t.items)), rest)
      && Blank(t.items[0].left) && Opens(Spell(t.items[0].tree))
    ensures ReadValue(rules, Spell(t) + rest, depth) == Got(Value(t), rest)
  {
    hide ReadItems, SkipSpace, Blank, SpellItems, Values;
    var s := Spell(t) + rest;
    var body := if t.items == [] then t.blank else SpellItems(t.items);
    assert s == [0x5B] + (body + ([0x5D] + rest));
    assert s[1..] == body + ([0x5D] + rest);
    if t.items == [] {
      Separated(t.blank, 0x5D, rest);
      NoValues();
    } else {
      ItemsOpen(t.items, rest);
      ItemsSkip(rules, s[1..], depth, []);
      assert [] + Values(t.items) == Values(t.items);
    }
  }

  lemma ItemsOpen(items: seq<ItemTree>, rest: Bytes)
    requires items != [] && Blank(items[0].left) && Opens(Spell(items[0].tree))
    ensures Opens(SkipSpace(SpellItems(items) + ([0x5D] + rest)))
  {
    hide Spell, SpellItems, SkipSpace, Blank;
    ItemsSpelled(items, rest);
    var x := items[0];
    var tail := x.right + if |items| == 1 then [0x5D] + rest else [COMMA] + (SpellItems(items[1..]) + ([0x5D] + rest));
    BlankIs(Spell(x.tree)[0]);
    SkipBlank(x.left, Spell(x.tree) + tail);
  }

  lemma ItemsSkip(rules: Rules, s: Bytes, depth: nat, acc: seq<Json>)
    ensures ReadItems(rules, SkipSpace(s), depth, acc) == ReadItems(rules, s, depth, acc)
  {
    hide ReadValue;
    SkipTwice(s);
  }

  lemma MembersSkip(rules: Rules, s: Bytes, depth: nat, acc: seq<Member>)
    ensures ReadMembers(rules, SkipSpace(s), depth, acc) == ReadMembers(rules, s, depth, acc)
  {
    hide ReadValue, ReadString;
    SkipTwice(s);
  }

  lemma OneMember(rules: Rules, left: Bytes, name: Bytes, key: Bytes, middle: Bytes, space: Bytes, body: Bytes, v: Json,
                  tail: Bytes, mark: Byte, more: Bytes, depth: nat, acc: seq<Member>)
    requires Blank(left) && Blank(middle) && Blank(space) && Opens(name) && Opens(body)
    requires SkipSpace(tail) == [mark] + more && (mark == COMMA || mark == 0x7D) && !HasKey(acc, key)
    requires var behind := middle + ([COLON] + (space + (body + tail)));
      ReadString(name + behind, rules.limits.maxStringBytes) == Got(key, behind)
    requires ReadValue(rules, body + tail, depth + 1) == Got(v, tail)
    ensures ReadMembers(rules, left + (name + (middle + ([COLON] + (space + (body + tail))))), depth, acc)
         == var next := InsertMember(acc, Member(key, v));
            if mark == COMMA then ReadMembers(rules, more, depth, next) else Got(Object(next), more)
  {
    hide ReadValue, ReadString, SkipSpace, Blank, HasKey, InsertMember;
    var value := space + (body + tail);
    BlankIs(name[0]);
    SkipBlank(left, name + (middle + ([COLON] + value)));
    BlankIs(COLON);
    SkipBlank(middle, [COLON] + value);
    assert ([COLON] + value)[1..] == value;
    BlankIs(body[0]);
    SkipBlank(space, body + tail);
    assert ([mark] + more)[1..] == more;
  }

  lemma MembersStepSpelled(members: seq<MemberTree>)
    requires members != []
    ensures var m := members[0];
      SpellMembers(members)
        == m.left + SpellString(m.key) + m.middle + [COLON] + m.space + Spell(m.tree) + m.right
           + Following(|members| == 1, SpellMembers(members[1..]))
  {
    hide Spell, SpellString;
    assert Ascii(",") == [COMMA] && Ascii(":") == [COLON];
  }

  lemma Grouped7(a: Bytes, b: Bytes, c: Bytes, d: Bytes, e: Bytes, f: Bytes, g: Bytes, more: Bytes, close: Bytes)
    ensures a + b + c + d + e + f + g + more + close == a + (b + (c + (d + (e + (f + (g + (more + close)))))))
  {
    Grouped3(a, b, c, d + (e + (f + (g + more))), close);
    Grouped3(d, e, f, g + more, close);
    assert g + more + close == g + (more + close);
    Front7(a, b, c, d, e, f, g, more);
  }

  lemma Front7(a: Bytes, b: Bytes, c: Bytes, d: Bytes, e: Bytes, f: Bytes, g: Bytes, more: Bytes)
    ensures a + b + c + d + e + f + g + more == a + b + c + (d + (e + (f + (g + more))))
  {
    Grouped3(a + b + c, d, e, f, g + more);
    assert f + (g + more) == f + g + more;
    assert a + b + c + d + e + f + g + more == a + b + c + d + e + f + (g + more);
  }

  lemma MembersSpelled(members: seq<MemberTree>, rest: Bytes)
    requires members != []
    ensures var m := members[0];
      var tail := if |members| == 1 then [0x7D] + rest else [COMMA] + (SpellMembers(members[1..]) + ([0x7D] + rest));
      SpellMembers(members) + ([0x7D] + rest)
        == m.left + (SpellString(m.key) + (m.middle + ([COLON] + (m.space + (Spell(m.tree) + (m.right + tail))))))
  {
    hide *;
    var m, more := members[0], SpellMembers(members[1..]);
    MembersStepSpelled(members);
    Grouped7(m.left, SpellString(m.key), m.middle, [COLON], m.space, Spell(m.tree), m.right, Following(|members| == 1, more),
             [0x7D] + rest);
    FollowingClosed(|members| == 1, more, [0x7D] + rest);
  }

  ghost predicate NoneHeld(acc: seq<Member>, members: seq<MemberTree>) {
    forall i :: 0 <= i < |members| ==> !HasKey(acc, Meaning(members[i].key))
  }

  lemma InsertHasKey(acc: seq<Member>, m: Member, key: Bytes)
    ensures HasKey(InsertMember(acc, m), key) <==> HasKey(acc, key) || m.key == key
  {
    InsertElements(acc, m);
  }

  lemma NoneHeldNext(acc: seq<Member>, members: seq<MemberTree>, v: Json)
    requires members != [] && DistinctKeys(members) && NoneHeld(acc, members)
    ensures DistinctKeys(members[1..])
    ensures NoneHeld(InsertMember(acc, Member(Meaning(members[0].key), v)), members[1..])
  {
    hide HasKey, InsertMember;
    var m := Member(Meaning(members[0].key), v);
    forall i | 0 <= i < |members[1..]|
      ensures !HasKey(InsertMember(acc, m), Meaning(members[1..][i].key))
    {
      InsertHasKey(acc, m, Meaning(members[i + 1].key));
    }
  }

  lemma StringOpens(us: seq<Unit>)
    ensures Opens(SpellString(us))
  {
    hide SpellUnits;
  }

  lemma {:induction false} MembersAccepted(rules: Rules, members: seq<MemberTree>, depth: nat, acc: seq<Member>, rest: Bytes)
    requires members != [] && MembersOk(rules, members, depth + 1) && DistinctKeys(members) && NoneHeld(acc, members)
    ensures ReadMembers(rules, SpellMembers(members) + ([0x7D] + rest), depth, acc) == Got(Object(Gather(members, acc)), rest)
    decreases members, 1
  {
    hide ReadMembers, ReadValue, ReadString, SpellMembers, SpellString, Spell, Value, TreeOk, Closed, Blank, SkipSpace;
    hide InsertMember, Meaning, UnitsOk, DistinctKeys, HasKey, Opens;
    var m, last := members[0], |members| == 1;
    var more := if last then rest else SpellMembers(members[1..]) + ([0x7D] + rest);
    var mark: Byte := if last then 0x7D else COMMA;
    var tail := m.right + ([mark] + more);
    var key, v, behind := Meaning(m.key), Value(m.tree), m.middle + ([COLON] + (m.space + (Spell(m.tree) + tail)));
    MembersSpelled(members, rest);
    TreeOpens(rules, m.tree, depth + 1);
    StringOpens(m.key);
    Separated(m.right, mark, more);
    TreeAccepted(rules, m.tree, depth + 1, tail);
    StringAccepted(m.key, behind, rules.limits.maxStringBytes);
    OneMember(rules, m.left, SpellString(m.key), key, m.middle, m.space, Spell(m.tree), v, tail, mark, more, depth, acc);
    var next := InsertMember(acc, Member(key, v));
    if last {
      assert members[1..] == [];
    } else {
      NoneHeldNext(acc, members, v);
      MembersAccepted(rules, members[1..], depth, next, rest);
    }
  }

  lemma ObjectAccepted(rules: Rules, t: Tree, depth: nat, rest: Bytes)
    requires t.ObjectTree? && depth <= MaxDepth(rules.limits) && Blank(t.blank)
    requires t.members != [] ==>
      && ReadMembers(rules, SpellMembers(t.members) + ([0x7D] + rest), depth, []) == Got(Object(Gather(t.members, [])), rest)
      && Blank(t.members[0].left)
    ensures ReadValue(rules, Spell(t) + rest, depth) == Got(Value(t), rest)
  {
    hide ReadMembers, SkipSpace, Blank, SpellMembers, Gather;
    var s := Spell(t) + rest;
    var body := if t.members == [] then t.blank else SpellMembers(t.members);
    assert s == [0x7B] + (body + ([0x7D] + rest));
    assert s[1..] == body + ([0x7D] + rest);
    if t.members == [] {
      Separated(t.blank, 0x7D, rest);
      NoValues();
    } else {
      MembersOpen(t.members, rest);
      MembersSkip(rules, s[1..], depth, []);
    }
  }

  lemma MembersOpen(members: seq<MemberTree>, rest: Bytes)
    requires members != [] && Blank(members[0].left)
    ensures Opens(SkipSpace(SpellMembers(members) + ([0x7D] + rest)))
  {
    hide Spell, SpellMembers, SpellString, SkipSpace, Blank;
    MembersSpelled(members, rest);
    var m := members[0];
    var tail := m.right + if |members| == 1 then [0x7D] + rest else [COMMA] + (SpellMembers(members[1..]) + ([0x7D] + rest));
    var behind := m.middle + ([COLON] + (m.space + (Spell(m.tree) + tail)));
    StringOpens(m.key);
    BlankIs(SpellString(m.key)[0]);
    SkipBlank(m.left, SpellString(m.key) + behind);
  }

  lemma LeafAccepted(rules: Rules, t: Tree, depth: nat, rest: Bytes)
    requires TreeOk(rules, t, depth) && Closed(rest) && !t.ArrayTree? && !t.ObjectTree?
    ensures ReadValue(rules, Spell(t) + rest, depth) == Got(Value(t), rest)
  {
    hide ReadNumber, ReadString, NumberOk, SpellUnits, Number, Meaning;
    var s := Spell(t) + rest;
    if t.NumberTree? {
      NumberAccepted(rules, t, rest);
    } else if t.StringTree? {
      StringAccepted(t.units, rest, rules.limits.maxStringBytes);
    } else {
      Words();
      assert s[..|Spell(t)|] == Spell(t) && s[|Spell(t)|..] == rest;
    }
  }

  lemma Words()
    ensures Ascii("null") == [0x6E, 0x75, 0x6C, 0x6C] && Ascii("true") == [0x74, 0x72, 0x75, 0x65]
    ensures Ascii("false") == [0x66, 0x61, 0x6C, 0x73, 0x65]
  {
  }

  lemma {:induction false} TreeAccepted(rules: Rules, t: Tree, depth: nat, rest: Bytes)
    requires TreeOk(rules, t, depth) && Closed(rest)
    ensures ReadValue(rules, Spell(t) + rest, depth) == Got(Value(t), rest)
    decreases t, 0
  {
    hide ReadValue, ReadItems, ReadMembers, Spell, Value, Closed, Blank, NumberOk, UnitsOk, SpellItems, SpellMembers,
      Values, Gather;
    if t.ArrayTree? {
      if t.items != [] {
        ItemsAccepted(rules, t.items, depth, [], rest);
        TreeOpens(rules, t.items[0].tree, depth + 1);
      }
      ArrayAccepted(rules, t, depth, rest);
    } else if t.ObjectTree? {
      if t.members != [] {
        NothingHeld(t.members);
        MembersAccepted(rules, t.members, depth, [], rest);
      }
      ObjectAccepted(rules, t, depth, rest);
    } else {
      LeafAccepted(rules, t, depth, rest);
    }
  }

  lemma NothingHeld(members: seq<MemberTree>)
    ensures NoneHeld([], members)
  {
  }

  // ---------------------------------------------------------------------------
  // Whatever is accepted is such a text
  // ---------------------------------------------------------------------------

  lemma LeafRead(rules: Rules, s: Bytes, depth: nat) returns (t: Tree)
    requires ReadValue(rules, s, depth).Got? && s[0] != 0x7B && s[0] != 0x5B
    ensures TreeOk(rules, t, depth)
    ensures var r := ReadValue(rules, s, depth); s == Spell(t) + r.rest && r.value == Value(t)
  {
    hide ReadNumber, ReadString, NumberOk, UnitsOk, SpellString, Meaning, ArrayBody, ObjectBody;
    var r := ReadValue(rules, s, depth);
    Words();
    if s[0] == QUOTE {
      var us := StringRead(s, rules.limits.maxStringBytes);
      t := StringTree(us);
    } else if s[0] == MINUS || IsDigit(s[0]) {
      t := NumberRead(rules, s);
      hide Value, Spell;
    } else {
      t := if s[0] == 0x74 then TrueTree else if s[0] == 0x66 then FalseTree else NullTree;
      assert s == s[..|Spell(t)|] + s[|Spell(t)|..];
    }
  }

  /** A first item in front of the others. */
  lemma ItemsCons(rules: Rules, x: ItemTree, items: seq<ItemTree>, depth: nat, rest: Bytes)
    requires Blank(x.left) && TreeOk(rules, x.tree, depth) && Blank(x.right) && TreesOk(rules, items, depth)
    ensures TreesOk(rules, [x] + items, depth) && Values([x] + items) == [Value(x.tree)] + Values(items)
    ensures var tail := if items == [] then [0x5D] + rest else [COMMA] + (SpellItems(items) + ([0x5D] + rest));
      SpellItems([x] + items) + ([0x5D] + rest) == x.left + (Spell(x.tree) + (x.right + tail))
  {
    var all := [x] + items;
    assert all[0] == x && all[1..] == items;
    assert TreesOk(rules, all, depth);
    hide *;
    ItemsSpelled(all, rest);
    ValuesCons(all);
  }

  lemma {:induction false} ItemsRead(rules: Rules, s: Bytes, depth: nat, acc: seq<Json>) returns (items: seq<ItemTree>)
    requires ReadItems(rules, s, depth, acc).Got?
    ensures items != [] && TreesOk(rules, items, depth + 1)
    ensures var r := ReadItems(rules, s, depth, acc);
      s == SpellItems(items) + ([0x5D] + r.rest) && r.value == Array(acc + Values(items))
    decreases |s|, 1
  {
    hide ReadValue, SpellItems, Spell, Value, Values, TreeOk, TreesOk, Blank, SkipSpace;
    var r := ReadItems(rules, s, depth, acc);
    var left := Skipped(s);
    var one := ReadValue(rules, SkipSpace(s), depth + 1);
    var t := TreeRead(rules, SkipSpace(s), depth + 1);
    var right := Skipped(one.rest);
    var u := SkipSpace(one.rest);
    var x := ItemTree(left, t, right);
    NoItems(rules, depth + 1);
    if u[0] == COMMA {
      var more := ItemsRead(rules, u[1..], depth, acc + [one.value]);
      items := [x] + more;
      ItemsCons(rules, x, more, depth + 1, r.rest);
      assert u == [COMMA] + u[1..];
      assert (acc + [one.value]) + Values(more) == acc + ([one.value] + Values(more));
    } else {
      items := [x];
      ItemsCons(rules, x, [], depth + 1, r.rest);
      assert [x] + [] == [x] && [one.value] + [] == [one.value];
      assert u == [0x5D] + u[1..];
    }
  }

  lemma NoItems(rules: Rules, depth: nat)
    ensures TreesOk(rules, [], depth) && Values([]) == []
    ensures MembersOk(rules, [], depth)
  {
  }

  lemma ArrayBodyRead(rules: Rules, s: Bytes, depth: nat)
    requires ReadValue(rules, s, depth).Got? && s[0] == 0x5B
    ensures depth <= MaxDepth(rules.limits)
    ensures var u := SkipSpace(s[1..]);
      ReadValue(rules, s, depth)
        == if u != [] && u[0] == 0x5D then Got(Array([]), u[1..]) else ReadItems(rules, s[1..], depth, [])
  {
    hide ReadItems, SkipSpace;
    ItemsSkip(rules, s[1..], depth, []);
  }

  lemma ArraySpelled(blank: Bytes, items: seq<ItemTree>, rest: Bytes)
    ensures var t := ArrayTree(blank, items);
      && Spell(t) + rest == [0x5B] + ((if items == [] then blank else SpellItems(items)) + ([0x5D] + rest))
      && Value(t) == Array(Values(items))
  {
    hide SpellItems, Values;
    assert Ascii("[") == [0x5B] && Ascii("]") == [0x5D];
    hide Ascii;
    var body := if items == [] then blank else SpellItems(items);
    assert [0x5B] + body + [0x5D] + rest == [0x5B] + (body + ([0x5D] + rest));
  }

  lemma ArrayRead(rules: Rules, s: Bytes, depth: nat, items: seq<ItemTree>, blank: Bytes) returns (t: Tree)
    requires ReadValue(rules, s, depth).Got? && s[0] == 0x5B
    requires Blank(blank) && s[1..] == blank + SkipSpace(s[1..])
    requires TreesOk(rules, items, depth + 1)
    requires var u, r := SkipSpace(s[1..]), ReadItems(rules, s[1..], depth, []);
      if u != [] && u[0] == 0x5D then items == []
      else r.Got? ==> items != [] && s[1..] == SpellItems(items) + ([0x5D] + r.rest) && r.value == Array([] + Values(items))
    ensures TreeOk(rules, t, depth)
    ensures var r := ReadValue(rules, s, depth); s == Spell(t) + r.rest && r.value == Value(t)
  {
    hide ReadValue, ReadItems, SkipSpace, Blank, Spell, Value, SpellItems, Values, TreesOk;
    t := ArrayTree(blank, items);
    NoValues();
    ArrayBodyRead(rules, s, depth);
    var u, r := SkipSpace(s[1..]), ReadValue(rules, s, depth);
    ArraySpelled(blank, items, r.rest);
    assert s == [0x5B] + s[1..];
    if items == [] {
      assert u == [0x5D] + u[1..];
    } else {
      assert [] + Values(items) == Values(items);
    }
  }

  /** A first member in front of the others. */
  lemma MembersCons(rules: Rules, m: MemberTree, members: seq<MemberTree>, depth: nat, acc: seq<Member>, rest: Bytes)
    requires Blank(m.left) && StringOk(rules.limits, m.key) && Blank(m.middle) && Blank(m.space)
    requires TreeOk(rules, m.tree, depth) && Blank(m.right) && MembersOk(rules, members, depth)
    ensures MembersOk(rules, [m] + members, depth)
    ensures Gather([m] + members, acc) == Gather(members, InsertMember(acc, Member(Meaning(m.key), Value(m.tree))))
    ensures var tail := if members == [] then [0x7D] + rest else [COMMA] + (SpellMembers(members) + ([0x7D] + rest));
      SpellMembers([m] + members) + ([0x7D] + rest)
        == m.left + (SpellString(m.key) + (m.middle + ([COLON] + (m.space + (Spell(m.tree) + (m.right + tail))))))
  {
    var all := [m] + members;
    assert all[0] == m && all[1..] == members;
    assert MembersOk(rules, all, depth);
    hide *;
    MembersSpelled(all, rest);
    GatherCons(all, acc);
  }

  lemma GatherCons(members: seq<MemberTree>, acc: seq<Member>)
    requires members != []
    ensures Gather(members, acc)
         == Gather(members[1..], InsertMember(acc, Member(Meaning(members[0].key), Value(members[0].tree))))
  {
  }

  lemma KeysCons(m: MemberTree, members: seq<MemberTree>, v: Json, acc: seq<Member>)
    requires !HasKey(acc, Meaning(m.key)) && DistinctKeys(members)
    requires NoneHeld(InsertMember(acc, Member(Meaning(m.key), v)), members)
    ensures DistinctKeys([m] + members) && NoneHeld(acc, [m] + members)
  {
    hide HasKey, InsertMember;
    var all := [m] + members;
    forall i | 1 <= i < |all|
      ensures Meaning(all[i].key) != Meaning(m.key) && !HasKey(acc, Meaning(all[i].key))
    {
      assert all[i] == members[i - 1];
      InsertHasKey(acc, Member(Meaning(m.key), v), Meaning(members[i - 1].key));
    }
  }

  lemma NothingMore(members: seq<MemberTree>, acc: seq<Member>)
    requires members == []
    ensures DistinctKeys(members) && NoneHeld(acc, members) && Gather(members, acc) == acc
  {
  }

  lemma {:induction false} MembersRead(rules: Rules, s: Bytes, depth: nat, acc: seq<Member>) returns (members: seq<MemberTree>)
    requires ReadMembers(rules, s, depth, acc).Got?
    ensures members != [] && MembersOk(rules, members, depth + 1) && DistinctKeys(members) && NoneHeld(acc, members)
    ensures var r := ReadMembers(rules, s, depth, acc);
      s == SpellMembers(members) + ([0x7D] + r.rest) && r.value == Object(Gather(members, acc))
    decreases |s|, 1
  {
    hide ReadValue, ReadString, SpellMembers, SpellString, Spell, Value, Gather, TreeOk, MembersOk, Blank, SkipSpace,
      UnitsOk;
    hide Meaning, InsertMember, HasKey, DistinctKeys, NoneHeld;
    var r, limit := ReadMembers(rules, s, depth, acc), rules.limits.maxStringBytes;
    var left := Skipped(s);
    var k := ReadString(SkipSpace(s), limit);
    var key := StringRead(SkipSpace(s), limit);
    var middle := Skipped(k.rest);
    var w := SkipSpace(k.rest);
    var space := Skipped(w[1..]);
    var one := ReadValue(rules, SkipSpace(w[1..]), depth + 1);
    var t := TreeRead(rules, SkipSpace(w[1..]), depth + 1);
    var right := Skipped(one.rest);
    var u := SkipSpace(one.rest);
    var m := MemberTree(left, key, middle, space, t, right);
    var next := InsertMember(acc, Member(k.value, one.value));
    assert w == [COLON] + w[1..];
    NoItems(rules, depth + 1);
    if u[0] == COMMA {
      var more := MembersRead(rules, u[1..], depth, next);
      members := [m] + more;
      MembersCons(rules, m, more, depth + 1, acc, r.rest);
      KeysCons(m, more, one.value, acc);
      assert u == [COMMA] + u[1..];
    } else {
      members := [m] + [];
      NothingMore([], next);
      MembersCons(rules, m, [], depth + 1, acc, r.rest);
      KeysCons(m, [], one.value, acc);
      assert u == [0x7D] + u[1..];
    }
  }

  lemma ObjectBodyRead(rules: Rules, s: Bytes, depth: nat)
    requires ReadValue(rules, s, depth).Got? && s[0] == 0x7B
    ensures depth <= MaxDepth(rules.limits)
    ensures var u := SkipSpace(s[1..]);
      ReadValue(rules, s, depth)
        == if u != [] && u[0] == 0x7D then Got(Object([]), u[1..]) else ReadMembers(rules, s[1..], depth, [])
  {
    hide ReadMembers, SkipSpace;
    MembersSkip(rules, s[1..], depth, []);
  }

  lemma ObjectSpelled(blank: Bytes, members: seq<MemberTree>, rest: Bytes)
    ensures var t := ObjectTree(blank, members);
      && Spell(t) + rest == [0x7B] + ((if members == [] then blank else SpellMembers(members)) + ([0x7D] + rest))
      && Value(t) == Object(Gather(members, []))
  {
    hide SpellMembers, Gather;
    assert Ascii("{") == [0x7B] && Ascii("}") == [0x7D];
    hide Ascii;
    var body := if members == [] then blank else SpellMembers(members);
    assert [0x7B] + body + [0x7D] + rest == [0x7B] + (body + ([0x7D] + rest));
  }

  lemma ObjectRead(rules: Rules, s: Bytes, depth: nat, members: seq<MemberTree>, blank: Bytes) returns (t: Tree)
    requires ReadValue(rules, s, depth).Got? && s[0] == 0x7B
    requires Blank(blank) && s[1..] == blank + SkipSpace(s[1..])
    requires MembersOk(rules, members, depth + 1) && DistinctKeys(members)
    requires var u, r := SkipSpace(s[1..]), ReadMembers(rules, s[1..], depth, []);
      if u != [] && u[0] == 0x7D then members == []
      else r.Got? ==> members != [] && s[1..] == SpellMembers(members) + ([0x7D] + r.rest) && r.value == Object(Gather(members, []))
    ensures TreeOk(rules, t, depth)
    ensures var r := ReadValue(rules, s, depth); s == Spell(t) + r.rest && r.value == Value(t)
  {
    hide ReadValue, ReadMembers, SkipSpace, Blank, Spell, Value, SpellMembers, Gather, MembersOk, DistinctKeys;
    t := ObjectTree(blank, members);
    NoValues();
    ObjectBodyRead(rules, s, depth);
    var u, r := SkipSpace(s[1..]), ReadValue(rules, s, depth);
    ObjectSpelled(blank, members, r.rest);
    assert s == [0x7B] + s[1..];
    if members == [] {
      assert u == [0x7D] + u[1..];
    }
  }

  lemma {:induction false} TreeRead(rules: Rules, s: Bytes, depth: nat) returns (t: Tree)
    requires ReadValue(rules, s, depth).Got?
    ensures TreeOk(rules, t, depth)
    ensures var r := ReadValue(rules, s, depth); s == Spell(t) + r.rest && r.value == Value(t)
    decreases |s|, 0
  {
    hide ReadItems, ReadMembers, Spell, Value, TreeOk, TreesOk, MembersOk, Blank, SkipSpace, SpellItems, SpellMembers,
      Values,
      Gather, ReadNumber, ReadString, ReadLiteral, DistinctKeys, NoneHeld;
    if s[0] == 0x5B {
      var u, items := SkipSpace(s[1..]), [];
      var blank := Skipped(s[1..]);
      NoItems(rules, depth + 1);
      ItemsSkip(rules, s[1..], depth, []);
      if u == [] || u[0] != 0x5D {
        items := ItemsRead(rules, s[1..], depth, []);
      }
      t := ArrayRead(rules, s, depth, items, blank);
    } else if s[0] == 0x7B {
      var u, members := SkipSpace(s[1..]), [];
      var blank := Skipped(s[1..]);
      NoItems(rules, depth + 1);
      NothingMore([], []);
      MembersSkip(rules, s[1..], depth, []);
      if u == [] || u[0] != 0x7D {
        members := MembersRead(rules, s[1..], depth, []);
      }
      t := ObjectRead(rules, s, depth, members, blank);
    } else {
      t := LeafRead(rules, s, depth);
    }
  }

  lemma {:induction false} GatherKeeps(members: seq<MemberTree>, acc: seq<Member>)
    requires DistinctKeys(members) && NoneHeld(acc, members) && SortedKeys(acc)
    ensures SortedKeys(Gather(members, acc))
    ensures forall m :: m in Gather(members, acc) <==> m in acc || IsMember(members, m)
    decreases |members|
  {
    hide Meaning, Value, InsertMember, HasKey, SortedKeys;
    if members != [] {
      var first := Member(Meaning(members[0].key), Value(members[0].tree));
      var next := InsertMember(acc, first);
      NoneHeldNext(acc, members, first.value);
      InsertSorted(acc, first);
      InsertElements(acc, first);
      GatherKeeps(members[1..], next);
      forall m
        ensures IsMember(members, m) <==> m == first || IsMember(members[1..], m)
      {
        MemberStep(members, m);
      }
    }
  }

  ghost predicate IsMember(members: seq<MemberTree>, m: Member) {
    exists i :: 0 <= i < |members| && m == Member(Meaning(members[i].key), Value(members[i].tree))
  }

  lemma MemberStep(members: seq<MemberTree>, m: Member)
    requires members != []
    ensures IsMember(members, m)
       <==> m == Member(Meaning(members[0].key), Value(members[0].tree)) || IsMember(members[1..], m)
  {
    hide Meaning, Value;
    if IsMember(members, m) {
      var i :| 0 <= i < |members| && m == Member(Meaning(members[i].key), Value(members[i].tree));
      assert i > 0 ==> members[1..][i - 1] == members[i];
    }
    if IsMember(members[1..], m) {
      var i :| 0 <= i < |members[1..]| && m == Member(Meaning(members[1..][i].key), Value(members[1..][i].tree));
      assert members[1..][i] == members[i + 1];
    }
  }

  /** The value of an object holds exactly the members that were written, in the order of their keys. */
  lemma ObjectIs(t: Tree)
    requires t.ObjectTree? && DistinctKeys(t.members)
    ensures Value(t).Object? && SortedKeys(Value(t).members)
    ensures forall m :: m in Value(t).members <==> IsMember(t.members, m)
  {
    hide IsMember, Gather;
    NothingHeld(t.members);
    GatherKeeps(t.members, []);
  }

  // ---------------------------------------------------------------------------
  // Documents
  // ---------------------------------------------------------------------------

  /** A document: one tree within the bounds, between white space. */
  ghost predicate IsDocument(rules: Rules, text: Bytes, left: Bytes, t: Tree, right: Bytes) {
    && |text| <= rules.limits.maxBytes && text == left + Spell(t) + right && Blank(left) && Blank(right)
    && TreeOk(rules, t, 0) && (rules.limits.requireObject ==> t.ObjectTree?)
  }

  lemma ValueShape(t: Tree)
    ensures Value(t).Object? <==> t.ObjectTree?
  {
    hide Values, Gather, Meaning, Number;
  }

  lemma BlankClosed(right: Bytes)
    requires Blank(right)
    ensures Closed(right) && SkipSpace(right) == []
  {
    SkipBlank(right, []);
    assert right + [] == right;
  }

  /** Every document is decoded to its value, however it is spelled. */
  lemma DocumentAccepted(rules: Rules, text: Bytes, left: Bytes, t: Tree, right: Bytes)
    requires IsDocument(rules, text, left, t, right)
    ensures ReadDocument(rules, text) == Got(Value(t), [])
  {
    hide ReadValue, Spell, Value, TreeOk, Blank, SkipSpace, Closed;
    TreeOpens(rules, t, 0);
    BlankIs(Spell(t)[0]);
    SkipBlank(left, Spell(t) + right);
    assert text == left + (Spell(t) + right);
    BlankClosed(right);
    TreeAccepted(rules, t, 0, right);
    ValueShape(t);
  }

  /** Whatever is decoded is a document, and its value is the one returned. */
  lemma DocumentRead(rules: Rules, text: Bytes) returns (left: Bytes, t: Tree, right: Bytes)
    requires ReadDocument(rules, text).Got?
    ensures IsDocument(rules, text, left, t, right) && ReadDocument(rules, text).value == Value(t)
  {
    hide ReadValue, Spell, Value, TreeOk, Blank, SkipSpace;
    left := Skipped(text);
    t := TreeRead(rules, SkipSpace(text), 0);
    var rest := ReadValue(rules, SkipSpace(text), 0).rest;
    right := Skipped(rest);
    assert rest == right + [] && right + [] == right;
    ValueShape(t);
    assert text == left + (Spell(t) + right);
  }

  /** The decoder accepts exactly the documents, so a text that is one in two ways has one value. */
  lemma DecodesExactly(rules: Rules, text: Bytes)
    ensures ReadDocument(rules, text).Got? <==> exists left, t, right :: IsDocument(rules, text, left, t, right)
    ensures forall left, t, right ::
      IsDocument(rules, text, left, t, right) ==> ReadDocument(rules, text) == Got(Value(t), [])
  {
    hide ReadDocument, IsDocument;
    if ReadDocument(rules, text).Got? {
      var left, t, right := DocumentRead(rules, text);
    }
    forall left, t, right | IsDocument(rules, text, left, t, right)
      ensures ReadDocument(rules, text) == Got(Value(t), [])
    {
      DocumentAccepted(rules, text, left, t, right);
    }
  }
}
