/** Printing and reading are inverse to each other. */
module JsonRoundTrip {
  import opened Bytes
  import opened Ordering
  import opened Utf8
  import opened Json
  import JsonGrammar

  // ---------------------------------------------------------------------------
  // Strings
  // ---------------------------------------------------------------------------

  lemma {:induction false} EscapedAppend(a: Bytes, b: Bytes)
    ensures EscapedAll(a + b) == EscapedAll(a) + EscapedAll(b)
    decreases |b|
  {
    hide Escaped;
    if b == [] {
      assert a + b == a;
    } else {
      var last := |b| - 1;
      assert (a + b)[..|a + b| - 1] == a + b[..last];
      EscapedAppend(a, b[..last]);
    }
  }

  lemma {:induction false} EscapedHigh(s: Bytes)
    requires forall i :: 0 <= i < |s| ==> s[i] >= 0x80
    ensures EscapedAll(s) == s
  {
    hide Escaped;
    if s != [] {
      EscapedHigh(s[..|s| - 1]);
      EscapedPlain(s[|s| - 1]);
      assert s == s[..|s| - 1] + [s[|s| - 1]];
    }
  }

  lemma EscapedPlain(b: Byte)
    requires b >= 0x80
    ensures Escaped(b) == [b]
  {
  }

  lemma EscapedOne(b: Byte)
    ensures EscapedAll([b]) == Escaped(b)
  {
    assert [b][..0] == [];
  }

  lemma HexRoundTrip(n: nat)
    requires n < 16
    ensures HexValue(HexDigit(n)) == n
  {
  }

  /** The escape of an ASCII byte reads back as that byte. */
  lemma UnitOfAscii(b: Byte, rest: Bytes)
    requires b < 0x80
    ensures Escaped(b)[0] != QUOTE
    ensures ReadUnit(Escaped(b) + rest) == Got([b], rest)
  {
    var s := Escaped(b) + rest;
    if b == QUOTE || b == BACKSLASH {
      assert s[1..][1..] == rest;
    } else if b >= 0x20 {
      assert s[1..] == rest && s[..1] == [b];
    } else if EscapeLetter(b) != 0 {
      assert s[1..][1..] == rest;
    } else {
      UnitOfControl(b, rest);
    }
  }

  lemma UnitOfControl(b: Byte, rest: Bytes)
    requires b < 0x20 && EscapeLetter(b) == 0
    ensures ReadUnit(Escaped(b) + rest) == Got([b], rest)
  {
    var s := Escaped(b) + rest;
    var hex := s[2..];
    HexRoundTrip(b / 16);
    HexRoundTrip(b % 16);
    assert s[1..][1..] == hex && hex[4..] == rest;
    assert ReadHex4(hex) == Got(b as nat, rest);
    assert ReadUnicode(hex) == Got(b as nat, rest);
  }

  /** One UTF-8 sequence of a string reads back from its escaped form. */
  lemma UnitRoundTrip(v: Bytes, rest: Bytes)
    requires v != [] && DecodeUtf8(v).length > 0
    ensures var unit := v[..DecodeUtf8(v).length];
      && EscapedAll(unit) != [] && EscapedAll(unit)[0] != QUOTE
      && ReadUnit(EscapedAll(unit) + rest) == Got(unit, rest)
  {
    var n := DecodeUtf8(v).length;
    if n == 1 {
      assert v[..1] == [v[0]];
      EscapedOne(v[0]);
      UnitOfAscii(v[0], rest);
    } else {
      hide DecodeUtf8, EscapedAll;
      HighBytes(v);
      EscapedHigh(v[..n]);
      DecodeLocal(v, rest);
      assert (v[..n] + rest)[..n] == v[..n] && (v[..n] + rest)[n..] == rest;
    }
  }

  lemma {:induction false} CharsRoundTrip(v: Bytes, rest: Bytes, out: Bytes, limit: nat)
    requires ValidUtf8(v) && |out| + |v| <= limit
    ensures ReadChars(EscapedAll(v) + [QUOTE] + rest, out, limit) == Got(out + v, rest)
    decreases |v|
  {
    hide *;
    CharsEnd(rest, out, limit);
    if v == [] {
      assert [] + [QUOTE] + rest == [QUOTE] + rest && out + v == out;
    } else {
      ValidSplits(v);
      var n := DecodeUtf8(v).length;
      var unit, more := v[..n], v[n..];
      var tail := EscapedAll(more) + [QUOTE] + rest;
      UnitRoundTrip(v, tail);
      CharsRoundTrip(more, rest, out + unit, limit);
      EscapedAppend(unit, more);
      assert unit + more == v && (out + unit) + more == out + v;
      CharsStep(EscapedAll(unit) + tail, out, limit, unit, tail);
      Regrouped(EscapedAll(unit), EscapedAll(more), [QUOTE], rest);
    }
  }

  lemma Regrouped(a: Bytes, b: Bytes, c: Bytes, d: Bytes)
    ensures (a + b) + c + d == a + (b + c + d) && (a + b + c) + d == a + (b + (c + d))
  {
  }

  lemma ValidSplits(v: Bytes)
    requires v != [] && ValidUtf8(v)
    ensures 0 < DecodeUtf8(v).length <= |v| && ValidUtf8(v[DecodeUtf8(v).length..])
  {
    hide DecodeUtf8;
  }

  lemma CharsEnd(rest: Bytes, out: Bytes, limit: nat)
    ensures ReadChars([QUOTE] + rest, out, limit) == Got(out, rest) && EscapedAll([]) == []
  {
    assert ([QUOTE] + rest)[1..] == rest;
  }

  lemma CharsStep(s: Bytes, out: Bytes, limit: nat, unit: Bytes, tail: Bytes)
    requires s != [] && s[0] != QUOTE && ReadUnit(s) == Got(unit, tail) && |out + unit| <= limit
    ensures ReadChars(s, out, limit) == ReadChars(tail, out + unit, limit)
  {
    hide ReadUnit;
  }

  lemma StringRoundTrip(v: Bytes, rest: Bytes, limit: nat)
    requires ValidUtf8(v) && |v| <= limit
    ensures ReadString(Quoted(v) + rest, limit) == Got(v, rest)
  {
    hide ReadChars, EscapedAll, ValidUtf8;
    CharsRoundTrip(v, rest, [], limit);
    Regrouped([QUOTE], EscapedAll(v), [QUOTE], rest);
    assert ([QUOTE] + (EscapedAll(v) + [QUOTE] + rest))[1..] == EscapedAll(v) + [QUOTE] + rest;
    assert [] + v == v;
  }

  // ---------------------------------------------------------------------------
  // Numbers
  // ---------------------------------------------------------------------------

  function Pow10(k: nat): (p: nat)
    ensures p > 0
  {
    if k == 0 then 1 else 10 * Pow10(k - 1)
  }

  lemma {:induction false} DecimalMagnitude(n: nat)
    ensures Magnitude(Decimal(n)) == n
  {
    var s := Decimal(n);
    if n < 10 {
      assert s[..0] == [];
    } else {
      DecimalMagnitude(n / 10);
      assert s[..|s| - 1] == Decimal(n / 10);
    }
  }

  lemma {:induction false} DecimalLength(n: nat, k: nat)
    requires n < Pow10(k) && k >= 1
    ensures |Decimal(n)| <= k
  {
    if n >= 10 {
      assert k >= 2;
      DecimalLength(n / 10, k - 1);
    }
  }

  lemma {:induction false} MagnitudeBound(digits: Bytes)
    requires forall i :: 0 <= i < |digits| ==> IsDigit(digits[i])
    ensures Magnitude(digits) < Pow10(|digits|)
  {
    if digits != [] {
      MagnitudeBound(digits[..|digits| - 1]);
    }
  }

  lemma Int64Digits(n: int)
    requires MIN_INT <= n <= MAX_INT
    ensures |FormatInt(n)| <= 20
  {
    assert Pow10(19) == 10000000000000000000 by {
      assert Pow10(6) == 1000000;
      assert Pow10(12) == 1000000000000;
      assert Pow10(18) == 1000000000000000000;
    }
    DecimalLength(if n < 0 then -n else n, 19);
  }

  /** The text does not go on with anything a number could contain. */
  predicate Stops(rest: Bytes) {
    rest == [] || (!IsDigit(rest[0]) && rest[0] != 0x2E && rest[0] != 0x65 && rest[0] != 0x45)
  }

  lemma IntegerPart(n: nat, rest: Bytes)
    requires Stops(rest)
    ensures IntegerLength(Decimal(n) + rest) == |Decimal(n)|
  {
    hide Decimal, DigitCount;
    JsonGrammar.CountIs(Decimal(n), rest);
    var s := Decimal(n) + rest;
    if s[0] == ZERO {
      assert s == [ZERO] + rest;
    }
  }

  lemma NumberRoundTrip(rules: Rules, n: int, rest: Bytes)
    requires MIN_INT <= n <= MAX_INT && Stops(rest)
    ensures ReadNumber(rules, FormatInt(n) + rest) == Got(Int(n), rest)
    ensures FormatInt(n)[0] == MINUS || IsDigit(FormatInt(n)[0])
  {
    hide Decimal, IntegerLength, Magnitude, ReadNumber;
    var size: nat := if n < 0 then -n else n;
    var s := FormatInt(n) + rest;
    var sign := if n < 0 then 1 else 0;
    assert s[sign..] == Decimal(size) + rest;
    IntegerPart(size, rest);
    Int64Digits(n);
    DecimalMagnitude(size);
    assert s[sign + |Decimal(size)|..] == rest;
    assert s[sign..sign + |Decimal(size)|] == Decimal(size);
    IntegerLiteral(rules, s, sign, |Decimal(size)|);
  }

  lemma IntegerLiteral(rules: Rules, s: Bytes, sign: nat, digits: nat)
    requires s != [] && sign == (if s[0] == MINUS then 1 else 0)
    requires IntegerLength(s[sign..]) == digits > 0 && sign + digits <= 64 && Stops(s[sign + digits..])
    requires forall i :: sign <= i < sign + digits ==> IsDigit(s[i])
    requires MIN_INT <= (if sign == 1 then -(Magnitude(s[sign..sign + digits]) as int) else Magnitude(s[sign..sign + digits])) <= MAX_INT
    ensures ReadNumber(rules, s)
         == Got(Int(if sign == 1 then -(Magnitude(s[sign..sign + digits]) as int) else Magnitude(s[sign..sign + digits])),
                s[sign + digits..])
  {
    hide IntegerLength, Magnitude;
    assert s[..sign + digits][sign..] == s[sign..sign + digits];
  }

  // ---------------------------------------------------------------------------
  // Values
  // ---------------------------------------------------------------------------

  ghost predicate SortedKeys(members: seq<Member>) {
    forall i, j :: 0 <= i < j < |members| ==> KeyLess(members[i].key, members[j].key)
  }

  predicate TextOk(limits: Limits, text: Bytes) {
    ValidUtf8(text) && |text| <= limits.maxStringBytes
  }

  /** What the decoder delivers at a depth. */
  ghost predicate WellFormed(limits: Limits, v: Json, depth: nat)
    decreases v
  {
    && depth <= MaxDepth(limits)
    && match v
       case Null => true
       case Bool(_) => true
       case Int(n) => MIN_INT <= n <= MAX_INT
       case Real(_) => true
       case String(text) => TextOk(limits, text)
       case Array(items) => forall i :: 0 <= i < |items| ==> WellFormed(limits, items[i], depth + 1)
       case Object(members) =>
         && SortedKeys(members)
         && forall i :: 0 <= i < |members| ==> TextOk(limits, members[i].key) && WellFormed(limits, members[i].value, depth + 1)
  }

  ghost predicate RealFree(v: Json)
    decreases v
  {
    match v
    case Real(_) => false
    case Array(items) => forall i :: 0 <= i < |items| ==> RealFree(items[i])
    case Object(members) => forall i :: 0 <= i < |members| ==> RealFree(members[i].value)
    case _ => true
  }

  ghost predicate Printable(limits: Limits, v: Json, depth: nat) {
    WellFormed(limits, v, depth) && RealFree(v)
  }

  predicate StartsValue(s: Bytes) {
    s != [] && !IsSpace(s[0]) && s[0] != 0x5D && s[0] != 0x7D
  }

  lemma FirstByte(rules: Rules, v: Json, depth: nat)
    requires Printable(rules.limits, v, depth)
    ensures StartsValue(Print(rules, v))
  {
    hide PrintItems, PrintMembers, EscapedAll, Decimal;
    if v.Int? {
      NumberRoundTrip(rules, v.n, []);
    }
  }

  lemma SkipNone(s: Bytes)
    requires s == [] || !IsSpace(s[0])
    ensures SkipSpace(s) == s
  {
  }

  lemma {:induction false} ValueRoundTrip(rules: Rules, v: Json, depth: nat, rest: Bytes)
    requires Printable(rules.limits, v, depth) && Stops(rest)
    ensures ReadValue(rules, Print(rules, v) + rest, depth) == Got(v, rest)
    decreases v, 0
  {
    match v
    case Null => LiteralRoundTrip(rules, v, depth, rest);
    case Bool(_) => LiteralRoundTrip(rules, v, depth, rest);
    case Int(n) => IntRoundTrip(rules, n, depth, rest);
    case String(text) => TextRoundTrip(rules, text, depth, rest);
    case Array(items) =>
      if items == [] {
        EmptyRoundTrip(rules, v, depth, rest);
      } else {
        ItemsRoundTrip(rules, items, depth, [], rest);
        ArrayOpens(rules, items, depth, rest);
      }
    case Object(members) =>
      if members == [] {
        EmptyRoundTrip(rules, v, depth, rest);
      } else {
        MembersRoundTrip(rules, members, depth, [], rest);
        ObjectOpens(rules, members, depth, rest);
      }
  }

  lemma LiteralRoundTrip(rules: Rules, v: Json, depth: nat, rest: Bytes)
    requires (v.Null? || v.Bool?) && depth <= MaxDepth(rules.limits)
    ensures ReadValue(rules, Print(rules, v) + rest, depth) == Got(v, rest)
  {
    hide ReadItems, ReadMembers, ReadNumber, ReadString;
    var token := Print(rules, v);
    assert (token + rest)[..|token|] == token && (token + rest)[|token|..] == rest;
  }

  lemma IntRoundTrip(rules: Rules, n: int, depth: nat, rest: Bytes)
    requires MIN_INT <= n <= MAX_INT && Stops(rest) && depth <= MaxDepth(rules.limits)
    ensures ReadValue(rules, Print(rules, Int(n)) + rest, depth) == Got(Int(n), rest)
  {
    hide FormatInt, ReadNumber, ReadItems, ReadMembers, ReadString;
    NumberRoundTrip(rules, n, rest);
  }

  lemma TextRoundTrip(rules: Rules, text: Bytes, depth: nat, rest: Bytes)
    requires TextOk(rules.limits, text) && depth <= MaxDepth(rules.limits)
    ensures ReadValue(rules, Print(rules, String(text)) + rest, depth) == Got(String(text), rest)
  {
    hide ReadString, ReadItems, ReadMembers, ReadNumber, EscapedAll;
    StringRoundTrip(text, rest, rules.limits.maxStringBytes);
    assert (Quoted(text) + rest)[0] == QUOTE;
  }

  lemma EmptyRoundTrip(rules: Rules, v: Json, depth: nat, rest: Bytes)
    requires (v == Array([]) || v == Object([])) && depth <= MaxDepth(rules.limits)
    ensures ReadValue(rules, Print(rules, v) + rest, depth) == Got(v, rest)
  {
    hide ReadItems, ReadMembers;
    var s := Print(rules, v) + rest;
    assert s[1..][1..] == rest;
    SkipNone(s[1..]);
  }

  lemma ArrayOpens(rules: Rules, items: seq<Json>, depth: nat, rest: Bytes)
    requires items != [] && Printable(rules.limits, Array(items), depth)
    requires ReadItems(rules, PrintItems(rules, items) + [0x5D] + rest, depth, []) == Got(Array([] + items), rest)
    ensures ReadValue(rules, Print(rules, Array(items)) + rest, depth) == Got(Array(items), rest)
  {
    hide ReadItems, ReadMembers;
    var s := Print(rules, Array(items)) + rest;
    FirstByte(rules, items[0], depth + 1);
    assert s[1..] == PrintItems(rules, items) + [0x5D] + rest;
    assert s[1] == Print(rules, items[0])[0];
    SkipNone(s[1..]);
    assert [] + items == items;
  }

  lemma ObjectOpens(rules: Rules, members: seq<Member>, depth: nat, rest: Bytes)
    requires members != [] && Printable(rules.limits, Object(members), depth)
    requires ReadMembers(rules, PrintMembers(rules, members) + [0x7D] + rest, depth, []) == Got(Object([] + members), rest)
    ensures ReadValue(rules, Print(rules, Object(members)) + rest, depth) == Got(Object(members), rest)
  {
    hide ReadItems, ReadMembers, EscapedAll, ReadString, ReadNumber, ReadLiteral;
    var s := Print(rules, Object(members)) + rest;
    assert s[1..] == PrintMembers(rules, members) + [0x7D] + rest;
    assert s[1] == QUOTE;
    SkipNone(s[1..]);
    assert [] + members == members;
  }

  /** What follows one item. */
  function AfterItem(rules: Rules, items: seq<Json>, rest: Bytes): Bytes
    requires items != []
  {
    if |items| == 1 then [0x5D] + rest else [COMMA] + (PrintItems(rules, items[1..]) + [0x5D] + rest)
  }

  lemma ItemsSplit(rules: Rules, items: seq<Json>, rest: Bytes)
    requires items != []
    ensures PrintItems(rules, items) + [0x5D] + rest == Print(rules, items[0]) + AfterItem(rules, items, rest)
    ensures AfterItem(rules, items, rest)[1..] == if |items| == 1 then rest else PrintItems(rules, items[1..]) + [0x5D] + rest
  {
    hide Print;
    var first, close := Print(rules, items[0]), [0x5D] + rest;
    if |items| == 1 {
      assert PrintItems(rules, items) == first + [];
    } else {
      hide PrintItems;
      PrintItemsStep(rules, items);
      Spliced(first, PrintItems(rules, items[1..]), 0x5D, rest);
    }
  }

  lemma PrintItemsStep(rules: Rules, items: seq<Json>)
    requires |items| > 1
    ensures PrintItems(rules, items) == Print(rules, items[0]) + ([COMMA] + PrintItems(rules, items[1..]))
  {
    hide Print;
  }

  lemma Spliced(first: Bytes, more: Bytes, close: Byte, rest: Bytes)
    ensures first + ([COMMA] + more) + [close] + rest == first + ([COMMA] + (more + [close] + rest))
    ensures ([COMMA] + (more + [close] + rest))[1..] == more + [close] + rest
  {
  }

  lemma ItemsStep(rules: Rules, s: Bytes, depth: nat, acc: seq<Json>, v: Json, tail: Bytes)
    requires ReadValue(rules, SkipSpace(s), depth + 1) == Got(v, tail)
    requires tail != [] && (tail[0] == COMMA || tail[0] == 0x5D)
    ensures ReadItems(rules, s, depth, acc)
         == if tail[0] == COMMA then ReadItems(rules, tail[1..], depth, acc + [v]) else Got(Array(acc + [v]), tail[1..])
  {
    hide ReadValue;
    SkipNone(tail);
  }

  lemma {:induction false} ItemsRoundTrip(rules: Rules, items: seq<Json>, depth: nat, acc: seq<Json>, rest: Bytes)
    requires items != [] && forall i :: 0 <= i < |items| ==> Printable(rules.limits, items[i], depth + 1)
    ensures ReadItems(rules, PrintItems(rules, items) + [0x5D] + rest, depth, acc) == Got(Array(acc + items), rest)
    decreases items, 1
  {
    hide Print, PrintItems, ReadValue, ReadItems, Printable;
    var v, tail := items[0], AfterItem(rules, items, rest);
    ItemsSplit(rules, items, rest);
    ValueRoundTrip(rules, v, depth + 1, tail);
    FirstByte(rules, v, depth + 1);
    SkipNone(Print(rules, v) + tail);
    ItemsStep(rules, Print(rules, v) + tail, depth, acc, v, tail);
    if |items| == 1 {
      assert items == [v];
    } else {
      ItemsRoundTrip(rules, items[1..], depth, acc + [v], rest);
      assert (acc + [v]) + items[1..] == acc + items;
    }
  }

  // ---------------------------------------------------------------------------
  // Members
  // ---------------------------------------------------------------------------

  lemma TextInjective(a: Bytes, b: Bytes)
    ensures Text(a) == Text(b) ==> a == b
  {
    if Text(a) == Text(b) {
      forall i | 0 <= i < |a|
        ensures a[i] == b[i]
      {
        assert Text(a)[i] == Text(b)[i];
      }
    }
  }

  lemma KeyOrder(a: Bytes, b: Bytes, c: Bytes)
    ensures KeyLess(a, b) ==> !KeyLess(b, a) && a != b
    ensures KeyLess(a, b) && KeyLess(b, c) ==> KeyLess(a, c)
    ensures KeyLess(a, b) || KeyLess(b, a) || a == b
  {
    hide TextLess;
    TextTotal(Text(a), Text(b));
    TextInjective(a, b);
    if KeyLess(a, b) {
      TextAsymmetric(Text(a), Text(b));
      if KeyLess(b, c) {
        TextTransitive(Text(a), Text(b), Text(c));
      }
    }
  }

  lemma {:induction false} AppendMember(members: seq<Member>, m: Member)
    requires SortedKeys(members + [m])
    ensures !HasKey(members, m.key) && InsertMember(members, m) == members + [m]
  {
    hide KeyLess;
    var all := members + [m];
    forall i | 0 <= i < |members|
      ensures members[i].key != m.key && !KeyLess(m.key, members[i].key)
    {
      assert KeyLess(all[i].key, all[|members|].key);
      KeyOrder(members[i].key, m.key, m.key);
    }
    if members != [] {
      assert all[1..] == members[1..] + [m];
      AppendMember(members[1..], m);
    }
  }

  function AfterMember(rules: Rules, members: seq<Member>, rest: Bytes): Bytes
    requires members != []
  {
    if |members| == 1 then [0x7D] + rest else [COMMA] + (PrintMembers(rules, members[1..]) + [0x7D] + rest)
  }

  lemma MembersSplit(rules: Rules, members: seq<Member>, rest: Bytes)
    requires members != []
    ensures PrintMembers(rules, members) + [0x7D] + rest
         == Quoted(members[0].key) + ([COLON] + (Print(rules, members[0].value) + AfterMember(rules, members, rest)))
    ensures AfterMember(rules, members, rest)[1..]
         == if |members| == 1 then rest else PrintMembers(rules, members[1..]) + [0x7D] + rest
  {
    hide Print, Quoted, PrintMembers;
    var key, value, tail := Quoted(members[0].key), Print(rules, members[0].value), AfterMember(rules, members, rest);
    Regrouped(key, [COLON], value, tail);
    PrintMembersStep(rules, members);
    if |members| == 1 {
      assert (key + [COLON] + value) + [0x7D] + rest == (key + [COLON] + value) + ([0x7D] + rest);
    } else {
      Spliced(key + [COLON] + value, PrintMembers(rules, members[1..]), 0x7D, rest);
    }
  }

  lemma PrintMembersStep(rules: Rules, members: seq<Member>)
    requires members != []
    ensures PrintMembers(rules, members)
         == var one := Quoted(members[0].key) + [COLON] + Print(rules, members[0].value);
            if |members| == 1 then one else one + ([COMMA] + PrintMembers(rules, members[1..]))
  {
    hide Print, Quoted;
  }

  lemma MembersStep(rules: Rules, s: Bytes, depth: nat, acc: seq<Member>, key: Bytes, value: Bytes, v: Json, tail: Bytes)
    requires ReadString(SkipSpace(s), rules.limits.maxStringBytes) == Got(key, [COLON] + value)
    requires ReadValue(rules, SkipSpace(value), depth + 1) == Got(v, tail)
    requires !HasKey(acc, key) && tail != [] && (tail[0] == COMMA || tail[0] == 0x7D)
    ensures ReadMembers(rules, s, depth, acc)
         == var next := InsertMember(acc, Member(key, v));
            if tail[0] == COMMA then ReadMembers(rules, tail[1..], depth, next) else Got(Object(next), tail[1..])
  {
    hide ReadValue, ReadString, HasKey;
    SkipNone([COLON] + value);
    assert ([COLON] + value)[1..] == value;
    SkipNone(tail);
  }

  lemma {:induction false} MembersRoundTrip(rules: Rules, members: seq<Member>, depth: nat, acc: seq<Member>, rest: Bytes)
    requires members != [] && SortedKeys(acc + members)
    requires forall i :: 0 <= i < |members| ==>
      TextOk(rules.limits, members[i].key) && Printable(rules.limits, members[i].value, depth + 1)
    ensures ReadMembers(rules, PrintMembers(rules, members) + [0x7D] + rest, depth, acc) == Got(Object(acc + members), rest)
    decreases members, 1
  {
    hide Print, PrintMembers, ReadValue, ReadMembers, Printable, Quoted, ReadString, KeyLess, HasKey;
    var m, tail := members[0], AfterMember(rules, members, rest);
    var value := Print(rules, m.value) + tail;
    MembersSplit(rules, members, rest);
    StringRoundTrip(m.key, [COLON] + value, rules.limits.maxStringBytes);
    QuotedStarts(m.key, [COLON] + value);
    ValueRoundTrip(rules, m.value, depth + 1, tail);
    FirstByte(rules, m.value, depth + 1);
    SkipNone(value);
    FrontSorted(acc, members);
    AppendMember(acc, m);
    MembersStep(rules, Quoted(m.key) + ([COLON] + value), depth, acc, m.key, value, m.value, tail);
    if |members| == 1 {
      assert members == [m];
    } else {
      assert (acc + [m]) + members[1..] == acc + members;
      MembersRoundTrip(rules, members[1..], depth, acc + [m], rest);
    }
  }

  lemma QuotedStarts(key: Bytes, rest: Bytes)
    ensures SkipSpace(Quoted(key) + rest) == Quoted(key) + rest
  {
    hide EscapedAll;
    SkipNone(Quoted(key) + rest);
  }

  lemma FrontSorted(acc: seq<Member>, members: seq<Member>)
    requires members != [] && SortedKeys(acc + members)
    ensures SortedKeys(acc + [members[0]])
  {
    hide KeyLess;
    forall i, j | 0 <= i < j < |acc + [members[0]]|
      ensures KeyLess((acc + [members[0]])[i].key, (acc + [members[0]])[j].key)
    {
      assert (acc + members)[i] == (acc + [members[0]])[i] && (acc + members)[j] == (acc + [members[0]])[j];
    }
  }

  // ---------------------------------------------------------------------------
  // What is read is well formed, and printing it takes no more room than the text did
  // ---------------------------------------------------------------------------

  lemma SequenceSound(s: Bytes)
    requires s != [] && DecodeUtf8(s).length > 0
    ensures var u := s[..DecodeUtf8(s).length];
      u != [] && ValidUtf8(u) && (DecodeUtf8(s).length > 1 ==> EscapedAll(u) == u) && (DecodeUtf8(s).length == 1 ==> u == [s[0]])
  {
    hide EscapedAll, ValidUtf8;
    EncodeDecoded(s);
    ValidOne(DecodeUtf8(s).codepoint);
    if DecodeUtf8(s).length > 1 {
      HighBytes(s);
      EscapedHigh(s[..DecodeUtf8(s).length]);
    }
  }

  lemma CodepointSound(c: nat)
    requires IsScalar(c)
    ensures ValidUtf8(EncodeUtf8(c)) && EncodeUtf8(c) != []
    ensures |EscapedAll(EncodeUtf8(c))| <= (if c < 0x10000 then 6 else 12)
  {
    hide EscapedAll, ValidUtf8;
    ValidOne(c);
    DecodeEncoded(c, []);
    assert EncodeUtf8(c) + [] == EncodeUtf8(c);
    if c < 0x80 {
      EscapedOne(c);
    } else {
      EscapedHigh(EncodeUtf8(c));
    }
  }

  lemma UnitSound(s: Bytes)
    requires s != [] && s[0] != QUOTE && ReadUnit(s).Got?
    ensures var r := ReadUnit(s);
      r.value != [] && ValidUtf8(r.value) && |EscapedAll(r.value)| + |r.rest| <= |s|
  {
    hide EscapedAll, ValidUtf8, DecodeUtf8, ReadUnicode;
    var r := ReadUnit(s);
    if s[0] != BACKSLASH {
      SequenceSound(s);
      EscapedOne(s[0]);
    } else if s[1] == 0x75 {
      CodepointSound(ReadUnicode(s[2..]).value);
      assert s[1..][1..] == s[2..];
    } else {
      assert |r.value| == 1 && r.value[0] < 0x80;
      EscapedOne(r.value[0]);
      AsciiValid(r.value[0]);
    }
  }

  lemma AsciiValid(b: Byte)
    requires b < 0x80
    ensures ValidUtf8([b])
  {
    assert [b][1..] == [];
  }

  lemma {:induction false} CharsSound(s: Bytes, out: Bytes, limit: nat)
    requires ValidUtf8(out) && |out| <= limit && ReadChars(s, out, limit).Got?
    ensures var r := ReadChars(s, out, limit);
      && ValidUtf8(r.value) && |r.value| <= limit
      && |EscapedAll(r.value)| + 1 + |r.rest| <= |EscapedAll(out)| + |s|
    decreases |s|
  {
    hide ReadUnit, ValidUtf8, EscapedAll;
    if s[0] != QUOTE {
      var unit := ReadUnit(s);
      UnitSound(s);
      ValidAppend(out, unit.value);
      EscapedAppend(out, unit.value);
      CharsSound(unit.rest, out + unit.value, limit);
    }
  }

  lemma StringSound(s: Bytes, limit: nat)
    requires ReadString(s, limit).Got?
    ensures var r := ReadString(s, limit);
      ValidUtf8(r.value) && |r.value| <= limit && |Quoted(r.value)| + |r.rest| <= |s|
  {
    hide ReadChars, EscapedAll;
    CharsSound(s[1..], [], limit);
    CharsEnd([], [], limit);
  }

  lemma NumberSound(rules: Rules, s: Bytes)
    requires ReadNumber(rules, s).Got?
    ensures var r := ReadNumber(rules, s);
      r.value.Real? || (r.value.Int? && MIN_INT <= r.value.n <= MAX_INT && |FormatInt(r.value.n)| + |r.rest| <= |s|)
  {
    hide Decimal, ScanNumber, Magnitude;
    var r, t := ReadNumber(rules, s), ScanNumber(s);
    if r.value.Int? {
      var digits := s[..t.length][t.sign..];
      MagnitudeBound(digits);
      DecimalLength(Magnitude(digits), |digits|);
    }
  }

  function ItemsTotal(rules: Rules, items: seq<Json>): nat {
    if items == [] then 0 else ItemsTotal(rules, items[..|items| - 1]) + |Print(rules, items[|items| - 1])|
  }

  function MemberSize(rules: Rules, m: Member): nat {
    |Quoted(m.key)| + 1 + |Print(rules, m.value)|
  }

  function MembersTotal(rules: Rules, members: seq<Member>): nat {
    if members == [] then 0 else MemberSize(rules, members[0]) + MembersTotal(rules, members[1..])
  }

  lemma {:induction false} ItemsTotalCons(rules: Rules, v: Json, items: seq<Json>)
    ensures ItemsTotal(rules, [v] + items) == |Print(rules, v)| + ItemsTotal(rules, items)
    decreases |items|
  {
    hide Print;
    if items == [] {
      assert [v] + [] == [v] && [v][..0] == [];
    } else {
      var last := |items| - 1;
      assert ([v] + items)[..last + 1] == [v] + items[..last] && ([v] + items)[last + 1] == items[last];
      ItemsTotalCons(rules, v, items[..last]);
    }
  }

  lemma {:induction false} PrintItemsSize(rules: Rules, items: seq<Json>)
    requires items != []
    ensures |PrintItems(rules, items)| == ItemsTotal(rules, items) + |items| - 1
    decreases |items|
  {
    hide Print, ItemsTotal;
    ItemsTotalCons(rules, items[0], items[1..]);
    assert items == [items[0]] + items[1..];
    if |items| == 1 {
      assert items[1..] == [];
      ItemsTotalNone(rules);
    } else {
      PrintItemsSize(rules, items[1..]);
    }
  }

  lemma ItemsTotalNone(rules: Rules)
    ensures ItemsTotal(rules, []) == 0 && MembersTotal(rules, []) == 0
  {
  }

  lemma {:induction false} PrintMembersSize(rules: Rules, members: seq<Member>)
    requires members != []
    ensures |PrintMembers(rules, members)| == MembersTotal(rules, members) + |members| - 1
    decreases |members|
  {
    hide Print, PrintMembers, Quoted;
    PrintMembersStep(rules, members);
    if |members| == 1 {
      assert members[1..] == [];
    } else {
      PrintMembersSize(rules, members[1..]);
    }
  }

  lemma {:induction false} InsertTotal(rules: Rules, members: seq<Member>, m: Member)
    ensures MembersTotal(rules, InsertMember(members, m)) == MembersTotal(rules, members) + MemberSize(rules, m)
  {
    hide MemberSize, KeyLess;
    if members == [] || KeyLess(m.key, members[0].key) {
      assert ([m] + members)[1..] == members;
    } else {
      InsertTotal(rules, members[1..], m);
      assert InsertMember(members, m)[1..] == InsertMember(members[1..], m);
    }
  }

  lemma {:induction false} InsertElements(members: seq<Member>, m: Member)
    ensures forall x :: x in InsertMember(members, m) <==> x in members || x == m
  {
    hide KeyLess;
    if members != [] && !KeyLess(m.key, members[0].key) {
      InsertElements(members[1..], m);
      assert members == [members[0]] + members[1..];
    }
  }

  lemma {:induction false} InsertSorted(members: seq<Member>, m: Member)
    requires SortedKeys(members) && !HasKey(members, m.key)
    ensures SortedKeys(InsertMember(members, m))
  {
    hide KeyLess;
    if members == [] {
    } else if KeyLess(m.key, members[0].key) {
      InsertFront(members, m);
    } else {
      var rest := InsertMember(members[1..], m);
      assert members[0] in members;
      KeyOrder(m.key, members[0].key, m.key);
      InsertSorted(members[1..], m);
      InsertElements(members[1..], m);
      forall j | 0 <= j < |rest|
        ensures KeyLess(members[0].key, rest[j].key)
      {
        assert rest[j] in rest;
      }
    }
  }

  lemma InsertFront(members: seq<Member>, m: Member)
    requires members != [] && SortedKeys(members) && KeyLess(m.key, members[0].key)
    ensures SortedKeys([m] + members)
  {
    hide KeyLess;
    forall j | 0 <= j < |members|
      ensures KeyLess(m.key, members[j].key)
    {
      if j > 0 {
        KeyOrder(m.key, members[0].key, members[j].key);
      }
    }
  }

  // ---------------------------------------------------------------------------
  // Values
  // ---------------------------------------------------------------------------

  ghost predicate ItemsOk(limits: Limits, items: seq<Json>, depth: nat) {
    forall i :: 0 <= i < |items| ==> WellFormed(limits, items[i], depth)
  }

  ghost predicate MembersOk(limits: Limits, members: seq<Member>, depth: nat) {
    SortedKeys(members)
    && forall m :: m in members ==> TextOk(limits, m.key) && WellFormed(limits, m.value, depth)
  }

  ghost predicate Fits(rules: Rules, v: Json, room: int) {
    RealFree(v) ==> |Print(rules, v)| <= room
  }

  lemma {:induction false} ValueSound(rules: Rules, s: Bytes, depth: nat)
    requires ReadValue(rules, s, depth).Got?
    ensures var r := ReadValue(rules, s, depth);
      WellFormed(rules.limits, r.value, depth) && Fits(rules, r.value, |s| - |r.rest|)
    decreases |s|, 0
  {
    hide ReadItems, ReadMembers, ReadNumber, ReadString, PrintItems, PrintMembers, Quoted, FormatInt, ValidUtf8;
    EmptyPrints(rules);
    if s[0] == 0x7B {
      var t := SkipSpace(s[1..]);
      if t == [] || t[0] != 0x7D {
        MembersSound(rules, t, depth, []);
        ObjectSound(rules, s, t, depth);
      }
    } else if s[0] == 0x5B {
      var t := SkipSpace(s[1..]);
      if t == [] || t[0] != 0x5D {
        ItemsSound(rules, t, depth, []);
        ArraySound(rules, s, t, depth);
      }
    } else if s[0] == QUOTE {
      StringSound(s, rules.limits.maxStringBytes);
    } else if s[0] == MINUS || IsDigit(s[0]) {
      NumberSound(rules, s);
    }
  }

  lemma EmptyPrints(rules: Rules)
    ensures |Print(rules, Array([]))| == |Print(rules, Object([]))| == 2
  {
  }

  lemma ArraySound(rules: Rules, s: Bytes, t: Bytes, depth: nat)
    requires depth <= MaxDepth(rules.limits) && |t| < |s|
    requires ReadItems(rules, t, depth, []).Got? && ReadItems(rules, t, depth, []).value.Array?
    requires var r := ReadItems(rules, t, depth, []);
      && r.value.items != [] && ItemsOk(rules.limits, r.value.items, depth + 1)
      && (RealFree(r.value) ==> ItemsTotal(rules, r.value.items) + |r.value.items| + |r.rest| <= ItemsTotal(rules, []) + |t|)
    ensures var r := ReadItems(rules, t, depth, []);
      WellFormed(rules.limits, r.value, depth) && Fits(rules, r.value, |s| - |r.rest|)
  {
    hide ReadItems, PrintItems, ItemsTotal;
    PrintItemsSize(rules, ReadItems(rules, t, depth, []).value.items);
    ItemsTotalNone(rules);
  }

  lemma ObjectSound(rules: Rules, s: Bytes, t: Bytes, depth: nat)
    requires depth <= MaxDepth(rules.limits) && |t| < |s|
    requires ReadMembers(rules, t, depth, []).Got? && ReadMembers(rules, t, depth, []).value.Object?
    requires var r := ReadMembers(rules, t, depth, []);
      && r.value.members != [] && MembersOk(rules.limits, r.value.members, depth + 1)
      && (RealFree(r.value) ==> MembersTotal(rules, r.value.members) + |r.value.members| + |r.rest| <= MembersTotal(rules, []) + |t|)
    ensures var r := ReadMembers(rules, t, depth, []);
      WellFormed(rules.limits, r.value, depth) && Fits(rules, r.value, |s| - |r.rest|)
  {
    hide ReadMembers, PrintMembers, MembersTotal, TextOk, SortedKeys;
    var r := ReadMembers(rules, t, depth, []);
    PrintMembersSize(rules, r.value.members);
    ItemsTotalNone(rules);
    assert forall i :: 0 <= i < |r.value.members| ==> r.value.members[i] in r.value.members;
  }

  lemma {:induction false} ItemsSound(rules: Rules, s: Bytes, depth: nat, items: seq<Json>)
    requires ItemsOk(rules.limits, items, depth + 1) && ReadItems(rules, s, depth, items).Got?
    ensures var r := ReadItems(rules, s, depth, items);
      && r.value.Array? && r.value.items != [] && items <= r.value.items
      && ItemsOk(rules.limits, r.value.items, depth + 1)
      && (RealFree(r.value) ==>
            ItemsTotal(rules, r.value.items) + |r.value.items| + |r.rest| <= ItemsTotal(rules, items) + |items| + |s|)
    decreases |s|, 1
  {
    hide ReadValue, Print, WellFormed, PrintItems;
    var one := ReadValue(rules, SkipSpace(s), depth + 1);
    ValueSound(rules, SkipSpace(s), depth + 1);
    var next := items + [one.value];
    assert next[..|items|] == items;
    assert ItemsTotal(rules, next) == ItemsTotal(rules, items) + |Print(rules, one.value)|;
    var t := SkipSpace(one.rest);
    var r := ReadItems(rules, s, depth, items);
    if t[0] == COMMA {
      ItemsSound(rules, t[1..], depth, next);
      assert r.value.items[|items|] == one.value;
    } else {
      assert r.value.items[|items|] == one.value;
    }
  }

  lemma {:induction false} MembersSound(rules: Rules, s: Bytes, depth: nat, members: seq<Member>)
    requires MembersOk(rules.limits, members, depth + 1) && ReadMembers(rules, s, depth, members).Got?
    ensures var r := ReadMembers(rules, s, depth, members);
      && r.value.Object? && r.value.members != []
      && (forall m :: m in members ==> m in r.value.members)
      && MembersOk(rules.limits, r.value.members, depth + 1)
      && (RealFree(r.value) ==>
            MembersTotal(rules, r.value.members) + |r.value.members| + |r.rest| <= MembersTotal(rules, members) + |members| + |s|)
    decreases |s|, 1
  {
    hide ReadValue, Print, WellFormed, PrintMembers, ReadString, Quoted, KeyLess, MembersTotal, TextOk, SortedKeys,
      HasKey, InsertMember;
    var limit := rules.limits.maxStringBytes;
    var k := ReadString(SkipSpace(s), limit);
    StringSound(SkipSpace(s), limit);
    var t := SkipSpace(k.rest);
    var one := ReadValue(rules, SkipSpace(t[1..]), depth + 1);
    ValueSound(rules, SkipSpace(t[1..]), depth + 1);
    var m := Member(k.value, one.value);
    var next := InsertMember(members, m);
    InsertSorted(members, m);
    InsertElements(members, m);
    InsertTotal(rules, members, m);
    KeyIsText(rules.limits, k.value);
    var u := SkipSpace(one.rest);
    if u[0] == COMMA {
      MembersSound(rules, u[1..], depth, next);
    }
    assert m in next;
    InObject(rules, ReadMembers(rules, s, depth, members).value, m);
  }

  lemma KeyIsText(limits: Limits, key: Bytes)
    requires ValidUtf8(key) && |key| <= limits.maxStringBytes
    ensures TextOk(limits, key)
  {
  }

  lemma InObject(rules: Rules, v: Json, m: Member)
    requires v.Object? && m in v.members
    ensures RealFree(v) ==> RealFree(m.value)
  {
  }

  // ---------------------------------------------------------------------------
  // Documents
  // ---------------------------------------------------------------------------

  /** Decoding a printed value returns that value, whenever the text is within the document bound. */
  lemma DecodePrinted(rules: Rules, v: Json)
    requires Printable(rules.limits, v, 0) && |Print(rules, v)| <= rules.limits.maxBytes
    requires rules.limits.requireObject ==> v.Object?
    ensures ReadDocument(rules, Print(rules, v)) == Got(v, [])
  {
    hide Print, ReadValue, Printable;
    var text := Print(rules, v);
    FirstByte(rules, v, 0);
    SkipNone(text);
    ValueRoundTrip(rules, v, 0, []);
    assert text + [] == text;
    SkipNone([]);
  }

  /** Printing what was decoded is a fixed point: for every accepted text without reals, the printed text is
      accepted again, as the same value, and is no longer than the original. */
  lemma PrintDecoded(rules: Rules, text: Bytes)
    requires ReadDocument(rules, text).Got? && RealFree(ReadDocument(rules, text).value)
    ensures var v := ReadDocument(rules, text).value;
      && |Print(rules, v)| <= |text|
      && ReadDocument(rules, Print(rules, v)) == Got(v, [])
  {
    hide Print, ReadValue, WellFormed, RealFree;
    ValueSound(rules, SkipSpace(text), 0);
    DecodePrinted(rules, ReadDocument(rules, text).value);
  }
}
