/** The loops of the JSON writer and the JSON parser. */
module JsonCodec {
  import opened Bytes
  import opened Utf8
  import opened Json
  import opened JsonRoundTrip

  /** Twice the document bound: a larger text is cut short, and no decoder accepts it. */
  const DUMP_BUDGET: nat := 2 * 512 * 1024

  // ---------------------------------------------------------------------------
  // Writing
  // ---------------------------------------------------------------------------

  class Writer {
    const rules: Rules
    var out: Bytes

    constructor (rules: Rules)
      ensures this.rules == rules && out == []
    {
      this.rules := rules;
      out := [];
    }

    method WriteEscapedString(value: Bytes)
      modifies this
      ensures out == old(out) + Quoted(value)
    {
      hide Escaped, EscapedAll;
      CharsEnd([], [], 0);
      out := out + [QUOTE];
      for i := 0 to |value|
        invariant out == old(out) + [QUOTE] + EscapedAll(value[..i])
      {
        assert value[..i + 1] == value[..i] + [value[i]];
        EscapedAppend(value[..i], [value[i]]);
        EscapedOne(value[i]);
        out := out + Escaped(value[i]);
      }
      assert value[..|value|] == value;
      out := out + [QUOTE];
    }

    /** Writes the whole canonical text, or stops somewhere in it beyond the budget. */
    method Dump(v: Json, budget: nat)
      modifies this
      ensures out == old(out) + Print(rules, v) || |out| > budget
      ensures out <= old(out) + Print(rules, v)
      decreases v
    {
      if |out| > budget {
        return;
      }
      match v
      case Array(items) => DumpItems(items, budget);
      case Object(members) => DumpMembers(members, budget);
      case String(text) => WriteEscapedString(text);
      case _ => out := out + Print(rules, v);
    }

    method DumpItems(items: seq<Json>, budget: nat)
      modifies this
      ensures out == old(out) + Print(rules, Array(items)) || |out| > budget
      ensures out <= old(out) + Print(rules, Array(items))
      decreases items
    {
      hide Print, PrintItems, Remaining;
      ArrayText(rules, items);
      AllItemsRemain(rules, items);
      out := out + [0x5B];
      ghost var start := out;
      ghost var whole := start + PrintItems(rules, items);
      Bracketed(old(out), [0x5B], PrintItems(rules, items), [0x5D]);
      for i := 0 to |items|
        invariant out + Remaining(rules, items, i) == whole
      {
        RemainingStep(rules, items, i);
        ghost var before := out;
        if i != 0 {
          out := out + [COMMA];
        }
        ItemPiece(before, if i == 0 then [] else [COMMA], Print(rules, items[i]), Remaining(rules, items, i + 1));
        Dump(items[i], budget);
        if |out| > budget {
          return;
        }
      }
      RemainingNone(rules, items);
      assert out + [] == out;
      out := out + [0x5D];
    }

    method DumpMembers(members: seq<Member>, budget: nat)
      modifies this
      ensures out == old(out) + Print(rules, Object(members)) || |out| > budget
      ensures out <= old(out) + Print(rules, Object(members))
      decreases members
    {
      hide Print, Quoted, PrintMembers, RemainingMembers;
      ObjectText(rules, members);
      AllMembersRemain(rules, members);
      out := out + [0x7B];
      ghost var start := out;
      ghost var whole := start + PrintMembers(rules, members);
      Bracketed(old(out), [0x7B], PrintMembers(rules, members), [0x7D]);
      for i := 0 to |members|
        invariant out + RemainingMembers(rules, members, i) == whole
      {
        RemainingMembersStep(rules, members, i);
        ghost var before := out;
        if i != 0 {
          out := out + [COMMA];
        }
        WriteEscapedString(members[i].key);
        out := out + [COLON];
        MemberPiece(before, if i == 0 then [] else [COMMA], Quoted(members[i].key), Print(rules, members[i].value),
                    RemainingMembers(rules, members, i + 1));
        Dump(members[i].value, budget);
        if |out| > budget {
          return;
        }
      }
      RemainingMembersNone(rules, members);
      assert out + [] == out;
      out := out + [0x7D];
    }
  }

  lemma Bracketed(a: Bytes, open: Bytes, text: Bytes, close: Bytes)
    ensures ((a + open) + text) + close == a + (open + text + close)
    ensures (a + open) + text <= a + (open + text + close)
  {
  }

  lemma ItemPiece(before: Bytes, comma: Bytes, value: Bytes, rest: Bytes)
    ensures before + ((comma + value) + rest) == ((before + comma) + value) + rest
    ensures before + [] == before
  {
  }

  lemma MemberPiece(before: Bytes, comma: Bytes, key: Bytes, value: Bytes, rest: Bytes)
    ensures before + ((comma + key + [COLON] + value) + rest) == ((((before + comma) + key) + [COLON]) + value) + rest
    ensures before + [] == before
  {
  }

  lemma ArrayText(rules: Rules, items: seq<Json>)
    ensures Print(rules, Array(items)) == [0x5B] + PrintItems(rules, items) + [0x5D]
  {
  }

  lemma ObjectText(rules: Rules, members: seq<Member>)
    ensures Print(rules, Object(members)) == [0x7B] + PrintMembers(rules, members) + [0x7D]
  {
  }

  /** The text of the items from i on, with the separator that precedes them. */
  function Remaining(rules: Rules, items: seq<Json>, i: nat): Bytes
    requires i <= |items|
  {
    if i == |items| then [] else (if i == 0 then [] else [COMMA]) + PrintItems(rules, items[i..])
  }

  lemma RemainingStep(rules: Rules, items: seq<Json>, i: nat)
    requires i < |items|
    ensures Remaining(rules, items, i)
         == ((if i == 0 then [] else [COMMA]) + Print(rules, items[i])) + Remaining(rules, items, i + 1)
  {
    hide Print;
    var rest := items[i..];
    assert rest[0] == items[i] && rest[1..] == items[i + 1..];
    if |rest| > 1 {
      hide PrintItems;
      PrintItemsStep(rules, rest);
    }
  }

  lemma RemainingNone(rules: Rules, items: seq<Json>)
    ensures Remaining(rules, items, |items|) == []
  {
  }

  function RemainingMembers(rules: Rules, members: seq<Member>, i: nat): Bytes
    requires i <= |members|
  {
    if i == |members| then [] else (if i == 0 then [] else [COMMA]) + PrintMembers(rules, members[i..])
  }

  lemma RemainingMembersStep(rules: Rules, members: seq<Member>, i: nat)
    requires i < |members|
    ensures RemainingMembers(rules, members, i)
         == ((if i == 0 then [] else [COMMA]) + Quoted(members[i].key) + [COLON] + Print(rules, members[i].value))
            + RemainingMembers(rules, members, i + 1)
  {
    hide Print, Quoted, PrintMembers;
    var rest := members[i..];
    assert rest[0] == members[i] && rest[1..] == members[i + 1..];
    PrintMembersStep(rules, rest);
  }

  lemma AllItemsRemain(rules: Rules, items: seq<Json>)
    ensures Remaining(rules, items, 0) == PrintItems(rules, items)
  {
    assert items[0..] == items;
  }

  lemma AllMembersRemain(rules: Rules, members: seq<Member>)
    ensures RemainingMembers(rules, members, 0) == PrintMembers(rules, members)
  {
    assert members[0..] == members;
  }

  lemma RemainingMembersNone(rules: Rules, members: seq<Member>)
    ensures RemainingMembers(rules, members, |members|) == []
  {
  }

  /** The text of a value; complete whenever it is no longer than the budget. */
  method DumpText(rules: Rules, v: Json) returns (text: Bytes)
    ensures |Print(rules, v)| <= DUMP_BUDGET ==> text == Print(rules, v)
    ensures |Print(rules, v)| > DUMP_BUDGET ==> |text| > DUMP_BUDGET
  {
    hide Print;
    var writer := new Writer(rules);
    writer.Dump(v, DUMP_BUDGET);
    assert [] + Print(rules, v) == Print(rules, v);
    text := writer.out;
  }

  // ---------------------------------------------------------------------------
  // Parsing
  // ---------------------------------------------------------------------------

  datatype Outcome<+T> = Ok(value: T) | Fail(code: Code)

  /** A parsing step from one suffix of the text to another agrees with the grammar. */
  ghost predicate Agrees<T>(read: Read<T>, o: Outcome<T>, after: Bytes) {
    match read
    case Got(v, rest) => o == Ok(v) && after == rest
    case Bad(code) => o == Fail(code)
  }

  lemma Drop(text: Bytes, i: nat, k: nat)
    requires i + k <= |text|
    ensures text[i..][k..] == text[i + k..]
  {
  }

  /** One turn of the array loop. */
  lemma ItemStep(rules: Rules, s: Bytes, depth: nat, items: seq<Json>)
    ensures var first := ReadValue(rules, SkipSpace(s), depth + 1);
      && (first.Bad? ==> ReadItems(rules, s, depth, items) == Bad(first.code))
      && (first.Got? ==>
            var t := SkipSpace(first.rest);
            ReadItems(rules, s, depth, items)
              == if t == [] then Bad(Syntax)
                 else if t[0] == COMMA then ReadItems(rules, t[1..], depth, items + [first.value])
                 else if t[0] == 0x5D then Got(Array(items + [first.value]), t[1..])
                 else Bad(Syntax))
  {
    hide ReadValue, SkipSpace;
  }

  class Parser {
    const text: Bytes
    const rules: Rules
    var pos: nat

    constructor (text: Bytes, rules: Rules)
      ensures this.text == text && this.rules == rules && pos == 0
    {
      this.text, this.rules, pos := text, rules, 0;
    }

    ghost function Rest(): Bytes
      reads this
      requires pos <= |text|
    {
      text[pos..]
    }

    method SkipWs()
      requires pos <= |text|
      modifies this
      ensures old(pos) <= pos <= |text| && Rest() == SkipSpace(old(Rest()))
    {
      while pos < |text| && IsSpace(text[pos])
        invariant old(pos) <= pos <= |text| && SkipSpace(Rest()) == SkipSpace(old(Rest()))
      {
        Drop(text, pos, 1);
        pos := pos + 1;
      }
    }

    method Literal(token: Bytes, v: Json) returns (o: Outcome<Json>)
      requires pos <= |text| && token != []
      modifies this
      ensures old(pos) <= pos <= |text| && Agrees(ReadLiteral(old(Rest()), token, v), o, Rest())
    {
      if |text| - pos < |token| {
        return Fail(InvalidLiteral);
      }
      assert text[pos..][..|token|] == text[pos..pos + |token|];
      if text[pos..pos + |token|] != token {
        return Fail(InvalidLiteral);
      }
      Drop(text, pos, |token|);
      pos := pos + |token|;
      o := Ok(v);
    }

    /** Moves over digits and counts them. */
    method Digits() returns (n: nat)
      requires pos <= |text|
      modifies this
      ensures pos == old(pos) + n <= |text| && n == DigitCount(old(Rest()))
    {
      n := 0;
      while pos < |text| && IsDigit(text[pos])
        invariant pos == old(pos) + n <= |text| && DigitCount(old(Rest())) == n + DigitCount(Rest())
      {
        Drop(text, pos, 1);
        pos := pos + 1;
        n := n + 1;
      }
    }

    /** The integer part of a number, behind its sign. */
    method IntegerDigits() returns (ok: bool)
      requires pos <= |text|
      modifies this
      ensures old(pos) <= pos <= |text|
      ensures var n := IntegerLength(old(Rest())); ok == (n > 0) && (ok ==> pos == old(pos) + n)
    {
      if pos >= |text| || !IsDigit(text[pos]) {
        return false;
      }
      if text[pos] == ZERO {
        pos := pos + 1;
        if pos < |text| && IsDigit(text[pos]) {
          assert old(Rest())[1] == text[pos];
          return false;
        }
        return true;
      }
      var n := Digits();
      ok := true;
    }

    method Fraction() returns (p: Part)
      requires pos <= |text|
      modifies this
      ensures old(pos) <= pos <= |text| && p == FractionPart(old(Rest()))
      ensures !p.Malformed? ==> pos == old(pos) + PartLength(p)
    {
      if pos < |text| && text[pos] == 0x2E {
        Drop(text, pos, 1);
        pos := pos + 1;
        var n := Digits();
        return if n == 0 then Malformed else Present(1 + n);
      }
      p := Absent;
    }

    method Exponent() returns (p: Part)
      requires pos <= |text|
      modifies this
      ensures old(pos) <= pos <= |text| && p == ExponentPart(old(Rest()))
      ensures !p.Malformed? ==> pos == old(pos) + PartLength(p)
    {
      hide DigitCount;
      if pos < |text| && (text[pos] == 0x65 || text[pos] == 0x45) {
        ghost var start := pos;
        var sign := 0;
        pos := pos + 1;
        if pos < |text| && (text[pos] == 0x2B || text[pos] == MINUS) {
          sign := 1;
          pos := pos + 1;
        }
        Drop(text, start, 1 + sign);
        var n := Digits();
        return if n == 0 then Malformed else Present(1 + sign + n);
      }
      p := Absent;
    }

    /** The fraction and the exponent of the number that began at start. */
    method FinishScan(start: nat, sign: nat) returns (t: Token)
      requires sign <= 1 && start + sign < pos <= |text|
      modifies this
      ensures old(pos) <= pos <= |text| && t == ScanTail(text[start..], sign, old(pos) - start)
      ensures t.Token? ==> pos == start + t.length
    {
      hide FractionPart, ExponentPart;
      Drop(text, start, pos - start);
      var fraction := Fraction();
      if fraction.Malformed? {
        return NoToken;
      }
      Drop(text, start, pos - start);
      var exponent := Exponent();
      if exponent.Malformed? {
        return NoToken;
      }
      t := Token(sign, pos - start, fraction.Present? || exponent.Present?);
    }

    /** The sign, the digits, the fraction and the exponent of a number. */
    method Scan() returns (t: Token)
      requires pos <= |text|
      modifies this
      ensures old(pos) <= pos <= |text| && t == ScanNumber(old(Rest()))
      ensures t.Token? ==> pos == old(pos) + t.length
    {
      hide IntegerLength, ScanTail;
      var start := pos;
      var sign := 0;
      if pos < |text| && text[pos] == MINUS {
        sign := 1;
        pos := pos + 1;
      }
      Drop(text, start, sign);
      var whole := IntegerDigits();
      if !whole {
        return NoToken;
      }
      t := FinishScan(start, sign);
    }

    method ParseNumber() returns (o: Outcome<Json>)
      requires pos <= |text|
      modifies this
      ensures old(pos) <= pos <= |text| && Agrees(ReadNumber(rules, old(Rest())), o, Rest())
    {
      hide ScanNumber, IntegerValue;
      var start := pos;
      ghost var s := Rest();
      var t := Scan();
      if t.NoToken? {
        return Fail(Syntax);
      }
      Drop(text, start, t.length);
      var token := text[start..pos];
      assert token == s[..t.length];
      if |token| > 64 {
        return Fail(NumberOutOfRange);
      }
      if t.isReal {
        return if rules.representable(token) then Ok(Real(token)) else Fail(NumberOutOfRange);
      }
      var n := Integer(token, t.sign);
      o := if n.Ok? then Ok(Int(n.value)) else Fail(n.code);
    }

    /** The value of an integer literal, accumulated in 64 bits with an overflow check before every step. */
    static method Integer(token: Bytes, sign: nat) returns (o: Outcome<int>)
      requires sign <= |token| && sign <= 1
      requires forall i :: sign <= i < |token| ==> IsDigit(token[i])
      ensures Agrees(IntegerValue(token, sign), o, [])
    {
      var magnitude, digits := 0, token[sign..];
      for i := 0 to |digits|
        invariant magnitude == Magnitude(digits[..i]) <= MAX_U64
      {
        var digit := DigitValue(digits[i]);
        assert digits[..i + 1][..i] == digits[..i];
        if magnitude > (MAX_U64 - digit) / 10 {
          MagnitudeGrows(digits, i + 1);
          return Fail(NumberOutOfRange);
        }
        magnitude := magnitude * 10 + digit;
      }
      assert digits[..|digits|] == digits;
      if sign == 1 {
        return if magnitude > MAX_INT + 1 then Fail(NumberOutOfRange) else Ok(-magnitude);
      }
      o := if magnitude > MAX_INT then Fail(NumberOutOfRange) else Ok(magnitude);
    }

    method ParseHex4() returns (o: Outcome<nat>)
      requires pos <= |text|
      modifies this
      ensures old(pos) <= pos <= |text| && Agrees(ReadHex4(old(Rest())), o, Rest())
    {
      if |text| - pos < 4 {
        return Fail(Syntax);
      }
      var value := 0;
      for i := 0 to 4
        invariant pos == old(pos)
        invariant forall k :: 0 <= k < i ==> HexValue(old(Rest())[k]) != 16
        invariant value == HexPrefix(old(Rest()), i)
      {
        var digit := HexValue(text[pos + i]);
        if digit == 16 {
          return Fail(Syntax);
        }
        value := value * 16 + digit;
      }
      HexFour(Rest());
      Drop(text, pos, 4);
      pos := pos + 4;
      o := Ok(value);
    }

    method ParseUnicode() returns (o: Outcome<nat>)
      requires pos <= |text|
      modifies this
      ensures old(pos) <= pos <= |text| && Agrees(ReadUnicode(old(Rest())), o, Rest())
    {
      hide ReadHex4;
      var first := ParseHex4();
      if first.Fail? {
        return Fail(first.code);
      }
      if 0xD800 <= first.value <= 0xDBFF {
        if |text| - pos < 6 || text[pos] != BACKSLASH || text[pos + 1] != 0x75 {
          return Fail(Syntax);
        }
        Drop(text, pos, 2);
        pos := pos + 2;
        var second := ParseHex4();
        if second.Fail? {
          return Fail(second.code);
        }
        if second.value < 0xDC00 || second.value > 0xDFFF {
          return Fail(Syntax);
        }
        return Ok(0x10000 + (first.value - 0xD800) * 1024 + (second.value - 0xDC00));
      }
      if 0xDC00 <= first.value <= 0xDFFF {
        return Fail(Syntax);
      }
      o := Ok(first.value);
    }

    /** One escape sequence, from its backslash on. */
    method ParseEscape() returns (o: Outcome<Bytes>)
      requires pos < |text| && text[pos] == BACKSLASH
      modifies this
      ensures old(pos) <= pos <= |text| && Agrees(ReadUnit(old(Rest())), o, Rest())
      ensures o.Ok? ==> pos > old(pos)
    {
      hide ReadUnicode;
      Drop(text, pos, 1);
      pos := pos + 1;
      if pos >= |text| {
        return Fail(Syntax);
      }
      var c := text[pos];
      Drop(text, pos, 1);
      if c == 0x75 {
        pos := pos + 1;
        var codepoint := ParseUnicode();
        return if codepoint.Fail? then Fail(codepoint.code) else Ok(EncodeUtf8(codepoint.value));
      }
      if c == QUOTE || c == BACKSLASH || c == 0x2F {
        pos := pos + 1;
        return Ok([c]);
      }
      if c == 0x62 || c == 0x66 || c == 0x6E || c == 0x72 || c == 0x74 {
        pos := pos + 1;
        return Ok([if c == 0x62 then 0x08 else if c == 0x66 then 0x0C else if c == 0x6E then 0x0A else if c == 0x72 then 0x0D else 0x09]);
      }
      o := Fail(Syntax);
    }

    /** One character of a string. */
    method ParseUnit() returns (o: Outcome<Bytes>)
      requires pos < |text| && text[pos] != QUOTE
      modifies this
      ensures old(pos) <= pos <= |text| && Agrees(ReadUnit(old(Rest())), o, Rest())
      ensures o.Ok? ==> pos > old(pos)
    {
      hide ReadUnit, DecodeUtf8;
      ghost var s := Rest();
      if text[pos] < 0x20 {
        ControlRefused(s);
        return Fail(Syntax);
      }
      if text[pos] == BACKSLASH {
        o := ParseEscape();
        return;
      }
      var n := DecodeUtf8(text[pos..]).length;
      PlainUnit(s);
      if n == 0 {
        return Fail(InvalidUtf8);
      }
      assert s[..n] == text[pos..pos + n];
      Drop(text, pos, n);
      o := Ok(text[pos..pos + n]);
      pos := pos + n;
    }

    method ParseString() returns (o: Outcome<Bytes>)
      requires pos <= |text|
      modifies this
      ensures old(pos) <= pos <= |text| && Agrees(ReadString(old(Rest()), rules.limits.maxStringBytes), o, Rest())
      ensures o.Ok? ==> pos > old(pos)
    {
      hide ReadUnit, DecodeUtf8;
      if pos >= |text| || text[pos] != QUOTE {
        return Fail(Syntax);
      }
      Drop(text, pos, 1);
      pos := pos + 1;
      var limit := rules.limits.maxStringBytes;
      var out := [];
      while true
        invariant old(pos) < pos <= |text|
        invariant ReadString(old(Rest()), limit) == ReadChars(Rest(), out, limit)
        decreases |text| - pos
      {
        if pos >= |text| {
          return Fail(Syntax);
        }
        var c := text[pos];
        if c == QUOTE {
          Drop(text, pos, 1);
          pos := pos + 1;
          return Ok(out);
        }
        var unit := ParseUnit();
        if unit.Fail? {
          return Fail(unit.code);
        }
        out := out + unit.value;
        if |out| > limit {
          return Fail(StringTooLong);
        }
      }
    }

    /** Any value, at a nesting depth. */
    method ParseValue(depth: nat) returns (o: Outcome<Json>)
      requires pos <= |text|
      modifies this
      ensures old(pos) <= pos <= |text| && Agrees(ReadValue(rules, old(Rest()), depth), o, Rest())
      ensures o.Ok? ==> pos > old(pos)
      decreases |text| - pos, 0
    {
      hide ArrayBody, ObjectBody, ReadString, ReadNumber, ReadLiteral;
      if pos >= |text| {
        return Fail(Syntax);
      }
      if depth > MaxDepth(rules.limits) {
        return Fail(DepthExceeded);
      }
      var c := text[pos];
      if c == 0x7B {
        Drop(text, pos, 1);
        pos := pos + 1;
        o := ParseObject(depth);
      } else if c == 0x5B {
        Drop(text, pos, 1);
        pos := pos + 1;
        o := ParseArray(depth);
      } else if c == QUOTE {
        var content := ParseString();
        o := if content.Fail? then Fail(content.code) else Ok(String(content.value));
      } else if c == 0x74 {
        o := Literal([0x74, 0x72, 0x75, 0x65], Bool(true));
      } else if c == 0x66 {
        o := Literal([0x66, 0x61, 0x6C, 0x73, 0x65], Bool(false));
      } else if c == 0x6E {
        o := Literal([0x6E, 0x75, 0x6C, 0x6C], Null);
      } else if c == MINUS || IsDigit(c) {
        o := ParseNumber();
      } else {
        o := Fail(Syntax);
      }
      ReadShrinks(rules, old(Rest()), depth);
    }

    /** An array behind its opening bracket. */
    method ParseArray(depth: nat) returns (o: Outcome<Json>)
      requires pos <= |text|
      modifies this
      ensures old(pos) <= pos <= |text| && Agrees(ArrayBody(rules, old(Rest()), depth), o, Rest())
      decreases |text| - pos, 1
    {
      hide ReadValue, SkipSpace, ReadItems;
      SkipWs();
      if pos < |text| && text[pos] == 0x5D {
        Drop(text, pos, 1);
        pos := pos + 1;
        return Ok(Array([]));
      }
      ghost var body := Rest();
      var items := [];
      while true
        invariant old(pos) <= pos <= |text|
        invariant ReadItems(rules, body, depth, []) == ReadItems(rules, Rest(), depth, items)
        decreases |text| - pos
      {
        ItemStep(rules, Rest(), depth, items);
        SkipWs();
        var item := ParseValue(depth + 1);
        if item.Fail? {
          return Fail(item.code);
        }
        items := items + [item.value];
        SkipWs();
        if pos >= |text| {
          return Fail(Syntax);
        }
        Drop(text, pos, 1);
        if text[pos] == COMMA {
          pos := pos + 1;
          continue;
        }
        if text[pos] == 0x5D {
          pos := pos + 1;
          return Ok(Array(items));
        }
        return Fail(Syntax);
      }
    }

    /** One member: key, colon, value. */
    method ParseMember(depth: nat) returns (o: Outcome<Member>)
      requires pos <= |text|
      modifies this
      ensures old(pos) <= pos <= |text| && Agrees(ReadMember(rules, old(Rest()), depth), o, Rest())
      ensures o.Ok? ==> pos > old(pos)
      decreases |text| - pos, 1
    {
      hide ReadValue, ReadString, SkipSpace;
      SkipWs();
      var key := ParseString();
      if key.Fail? {
        return Fail(key.code);
      }
      SkipWs();
      if pos >= |text| || text[pos] != COLON {
        return Fail(Syntax);
      }
      Drop(text, pos, 1);
      pos := pos + 1;
      SkipWs();
      var value := ParseValue(depth + 1);
      o := if value.Fail? then Fail(value.code) else Ok(Member(key.value, value.value));
    }

    /** An object behind its opening brace. */
    method ParseObject(depth: nat) returns (o: Outcome<Json>)
      requires pos <= |text|
      modifies this
      ensures old(pos) <= pos <= |text| && Agrees(ObjectBody(rules, old(Rest()), depth), o, Rest())
      decreases |text| - pos, 2
    {
      hide ReadMember, HasKey, InsertMember, SkipSpace;
      SkipWs();
      if pos < |text| && text[pos] == 0x7D {
        Drop(text, pos, 1);
        pos := pos + 1;
        return Ok(Object([]));
      }
      ghost var body := Rest();
      var members := [];
      while true
        invariant old(pos) <= pos <= |text|
        invariant ReadMembers(rules, body, depth, []) == ReadMembers(rules, Rest(), depth, members)
        decreases |text| - pos
      {
        var member := ParseMember(depth);
        if member.Fail? {
          return Fail(member.code);
        }
        if HasKey(members, member.value.key) {
          return Fail(DuplicateKey);
        }
        members := InsertMember(members, member.value);
        SkipWs();
        if pos >= |text| {
          return Fail(Syntax);
        }
        Drop(text, pos, 1);
        if text[pos] == COMMA {
          pos := pos + 1;
          continue;
        }
        if text[pos] == 0x7D {
          pos := pos + 1;
          return Ok(Object(members));
        }
        return Fail(Syntax);
      }
    }

    method ParseDocument() returns (o: Outcome<Json>)
      requires pos == 0 && |text| <= rules.limits.maxBytes
      modifies this
      ensures Agrees(ReadDocument(rules, text), o, [])
    {
      hide ReadValue, SkipSpace;
      assert Rest() == text;
      SkipWs();
      if pos >= |text| {
        return Fail(Syntax);
      }
      var value := ParseValue(0);
      if value.Fail? {
        return Fail(value.code);
      }
      SkipWs();
      if pos != |text| {
        return Fail(TrailingGarbage);
      }
      if rules.limits.requireObject && !value.value.Object? {
        return Fail(NotAnObject);
      }
      o := value;
    }
  }

  lemma ReadShrinks(rules: Rules, s: Bytes, depth: nat)
    ensures ReadValue(rules, s, depth).Got? ==> |ReadValue(rules, s, depth).rest| < |s|
  {
  }

  const MAX_U64: int := 0xFFFF_FFFF_FFFF_FFFF

  lemma {:induction false} MagnitudeGrows(digits: Bytes, n: nat)
    requires n <= |digits| && forall i :: 0 <= i < |digits| ==> IsDigit(digits[i])
    ensures Magnitude(digits[..n]) <= Magnitude(digits)
    decreases |digits|
  {
    if n < |digits| {
      MagnitudeGrows(digits[..|digits| - 1], n);
      assert digits[..|digits| - 1][..n] == digits[..n];
    } else {
      assert digits[..n] == digits;
    }
  }

  function HexPrefix(s: Bytes, i: nat): nat
    requires i <= |s|
  {
    if i == 0 then 0 else HexPrefix(s, i - 1) * 16 + HexValue(s[i - 1])
  }

  lemma HexFour(s: Bytes)
    requires |s| >= 4
    ensures HexPrefix(s, 4) == ((HexValue(s[0]) * 16 + HexValue(s[1])) * 16 + HexValue(s[2])) * 16 + HexValue(s[3])
  {
    assert HexPrefix(s, 1) == HexValue(s[0]);
    assert HexPrefix(s, 2) == HexPrefix(s, 1) * 16 + HexValue(s[1]);
    assert HexPrefix(s, 3) == HexPrefix(s, 2) * 16 + HexValue(s[2]);
  }

  lemma ControlRefused(s: Bytes)
    requires s != [] && s[0] < 0x20
    ensures ReadUnit(s) == Bad(Syntax)
  {
  }

  lemma PlainUnit(s: Bytes)
    requires s != [] && s[0] >= 0x20 && s[0] != BACKSLASH
    ensures ReadUnit(s) == var n := DecodeUtf8(s).length; if n == 0 then Bad(InvalidUtf8) else Got(s[..n], s[n..])
    ensures DecodeUtf8(s).length <= |s|
  {
    hide DecodeUtf8;
  }

  method Decode(text: Bytes, rules: Rules) returns (o: Outcome<Json>)
    ensures Agrees(ReadDocument(rules, text), o, [])
  {
    hide ReadValue;
    if |text| > rules.limits.maxBytes {
      return Fail(DocumentTooLarge);
    }
    var parser := new Parser(text, rules);
    o := parser.ParseDocument();
  }

  /** A value without reals that is within every bound of the decoder, its text included. */
  ghost predicate Acceptable(rules: Rules, v: Json) {
    && Printable(rules.limits, v, 0)
    && |Print(rules, v)| <= rules.limits.maxBytes
    && (rules.limits.requireObject ==> v.Object?)
  }

  lemma AcceptableMeans(rules: Rules, v: Json)
    requires Acceptable(rules, v)
    ensures Printable(rules.limits, v, 0) && |Print(rules, v)| <= rules.limits.maxBytes
    ensures rules.limits.requireObject ==> v.Object?
  {
    hide Print, Printable;
  }

  /** Writing a printable value and decoding the text gives the value back; decoding any text and writing the
      real-free result gives a text that decodes to the same value. */
  method Recode(rules: Rules, v: Json, text: Bytes) returns (again: Outcome<Json>, first: Outcome<Json>, second: Outcome<Json>)
    requires rules.limits.maxBytes <= DUMP_BUDGET
    ensures Acceptable(rules, v) ==> again == Ok(v)
    ensures Agrees(ReadDocument(rules, text), first, [])
    ensures first.Ok? && RealFree(first.value) ==> second == first
  {
    hide Print, ReadDocument, Printable, RealFree, Acceptable;
    var written := DumpText(rules, v);
    again := Decode(written, rules);
    if Acceptable(rules, v) {
      AcceptableMeans(rules, v);
      DecodePrinted(rules, v);
    }
    first := Decode(text, rules);
    second := first;
    if first.Ok? {
      ghost var free := RealFree(first.value);
      if free {
        DocumentSize(rules, text);
        PrintDecoded(rules, text);
      }
      var rewritten := DumpText(rules, first.value);
      second := Decode(rewritten, rules);
    }
  }

  lemma DocumentSize(rules: Rules, text: Bytes)
    ensures ReadDocument(rules, text).Got? ==> |text| <= rules.limits.maxBytes
  {
    hide ReadValue;
  }
}
