/** UTF-8 sequences: section 3 of RFC 3629. */
module Utf8 {
  import opened Bytes
  import opened Congruence

  /** The length of the sequence at the start of s and its code point; length 0 when it is not well formed. */
  datatype Sequence = Sequence(length: nat, codepoint: nat)

  const INVALID: Sequence := Sequence(0, 0)

  predicate IsTail(b: Byte) {
    0x80 <= b < 0xC0
  }

  /** A Unicode scalar value. */
  predicate IsScalar(c: nat) {
    c < 0xD800 || 0xE000 <= c <= 0x10FFFF
  }

  function Checked(length: nat, value: nat, minimum: nat): Sequence {
    if value < minimum then INVALID
    else if 0xD800 <= value <= 0xDFFF then INVALID
    else if value > 0x10FFFF then INVALID
    else Sequence(length, value)
  }

  /** Six more bits below the ones read so far. */
  function Shifted(high: nat, tail: Byte): nat
    requires IsTail(tail)
  {
    var low: nat := tail - 0x80;
    high * 64 + low
  }

  /** The value of the sequence's bytes: the low bits of the first, then six bits of every other. */
  function DecodeUtf8(s: Bytes): (r: Sequence)
    requires s != []
    ensures r.length <= |s| && r.length <= 4
  {
    var b := s[0];
    if b < 0x80 then Sequence(1, b)
    else if 0xC0 <= b < 0xE0 then
      if |s| < 2 || !IsTail(s[1]) then INVALID
      else Checked(2, Shifted(b - 0xC0, s[1]), 0x80)
    else if 0xE0 <= b < 0xF0 then
      if |s| < 3 || !IsTail(s[1]) || !IsTail(s[2]) then INVALID
      else Checked(3, Shifted(Shifted(b - 0xE0, s[1]), s[2]), 0x800)
    else if 0xF0 <= b < 0xF8 then
      if |s| < 4 || !IsTail(s[1]) || !IsTail(s[2]) || !IsTail(s[3]) then INVALID
      else Checked(4, Shifted(Shifted(Shifted(b - 0xF0, s[1]), s[2]), s[3]), 0x10000)
    else INVALID
  }

  function EncodeUtf8(c: nat): (s: Bytes)
    requires c <= 0x10FFFF
    ensures 1 <= |s| <= 4
  {
    if c < 0x80 then [c]
    else if c < 0x800 then [0xC0 + c / 64, 0x80 + c % 64]
    else if c < 0x10000 then [0xE0 + c / 4096, 0x80 + c / 64 % 64, 0x80 + c % 64]
    else [0xF0 + c / 262144, 0x80 + c / 4096 % 64, 0x80 + c / 64 % 64, 0x80 + c % 64]
  }

  lemma SixBits(c: nat)
    ensures c == c / 64 * 64 + c % 64 && c / 64 == c / 4096 * 64 + c / 64 % 64
    ensures c / 4096 == c / 262144 * 64 + c / 4096 % 64
  {
    assert c / 64 / 64 == c / 4096 && c / 4096 / 64 == c / 262144;
  }

  /** The bits of a byte below its marker. */
  function Payload(b: Byte, marker: Byte): int {
    var n: int := b;
    n - marker
  }

  /** The table of section 3: the marker of the first byte tells the length, every other byte holds six bits, high bits
      first. */
  ghost predicate Spelled(s: Bytes, c: nat) {
    || (|s| == 1 && c < 0x80 && s[0] == c)
    || (|s| == 2 && 0x80 <= c < 0x800 && 0xC0 <= s[0] < 0xE0 && IsTail(s[1])
        && c == Payload(s[0], 0xC0) * 64 + Payload(s[1], 0x80))
    || (|s| == 3 && 0x800 <= c < 0x1_0000 && 0xE0 <= s[0] < 0xF0 && IsTail(s[1]) && IsTail(s[2])
        && c == Payload(s[0], 0xE0) * 4096 + Payload(s[1], 0x80) * 64 + Payload(s[2], 0x80))
    || (|s| == 4 && 0x1_0000 <= c <= 0x10FFFF && 0xF0 <= s[0] < 0xF8 && IsTail(s[1]) && IsTail(s[2]) && IsTail(s[3])
        && c == Payload(s[0], 0xF0) * 262144 + Payload(s[1], 0x80) * 4096 + Payload(s[2], 0x80) * 64 + Payload(s[3], 0x80))
  }

  lemma EncodedIs(c: nat)
    requires c <= 0x10FFFF
    ensures Spelled(EncodeUtf8(c), c)
  {
    SixBits(c);
  }

  /** Decoding what was encoded. */
  lemma DecodeEncoded(c: nat, rest: Bytes)
    requires IsScalar(c)
    ensures DecodeUtf8(EncodeUtf8(c) + rest) == Sequence(|EncodeUtf8(c)|, c)
  {
    SixBits(c);
  }

  /** The six bits of c from position 6 i up. */
  function Sextet(c: nat, i: nat): nat {
    if i == 0 then c % 64 else if i == 1 then c / 64 % 64 else c / 4096 % 64
  }

  /** What is left of c above i sextets. */
  function Above(c: nat, i: nat): nat {
    if i == 1 then c / 64 else if i == 2 then c / 4096 else c / 262144
  }

  lemma TwoDigits(d0: nat, d1: nat, c: nat)
    requires d1 < 64 && c == d0 * 64 + d1
    ensures Above(c, 1) == d0 && Sextet(c, 0) == d1
  {
    ModUnique(c, d0, d1, 64);
  }

  lemma ThreeDigits(d0: nat, d1: nat, d2: nat, c: nat)
    requires d1 < 64 && d2 < 64 && c == (d0 * 64 + d1) * 64 + d2
    ensures Above(c, 2) == d0 && Sextet(c, 1) == d1 && Sextet(c, 0) == d2
  {
    ModUnique(c, d0 * 64 + d1, d2, 64);
    ModUnique(d0 * 64 + d1, d0, d1, 64);
    ModUnique(c, d0, d1 * 64 + d2, 4096);
  }

  lemma FourDigits(d0: nat, d1: nat, d2: nat, d3: nat, c: nat)
    requires d1 < 64 && d2 < 64 && d3 < 64 && c == ((d0 * 64 + d1) * 64 + d2) * 64 + d3
    ensures Above(c, 3) == d0 && Sextet(c, 2) == d1 && Sextet(c, 1) == d2 && Sextet(c, 0) == d3
  {
    hide Above;
    ThreeDigits(d0 * 64 + d1, d2, d3, c);
    SecondDigit(d0, d1, d2, d3, c);
  }

  lemma SecondDigit(d0: nat, d1: nat, d2: nat, d3: nat, c: nat)
    requires d1 < 64 && d2 < 64 && d3 < 64 && c == ((d0 * 64 + d1) * 64 + d2) * 64 + d3
    ensures Above(c, 3) == d0 && Sextet(c, 2) == d1
  {
    ModUnique(c, d0 * 64 + d1, d2 * 64 + d3, 4096);
    ModUnique(d0 * 64 + d1, d0, d1, 64);
    ModUnique(c, d0, (d1 * 64 + d2) * 64 + d3, 262144);
  }

  lemma EncodedForms(c: nat)
    requires 0x80 <= c <= 0x10FFFF
    ensures EncodeUtf8(c)
         == if c < 0x800 then [0xC0 + Above(c, 1), 0x80 + Sextet(c, 0)]
            else if c < 0x10000 then [0xE0 + Above(c, 2), 0x80 + Sextet(c, 1), 0x80 + Sextet(c, 0)]
            else [0xF0 + Above(c, 3), 0x80 + Sextet(c, 2), 0x80 + Sextet(c, 1), 0x80 + Sextet(c, 0)]
  {
  }

  lemma TwoBytes(first: nat, b: Byte, c: nat)
    requires IsTail(b) && first < 32 && c == Shifted(first, b) && 0x80 <= c < 0x800
    ensures EncodeUtf8(c) == [0xC0 + first, b]
  {
    hide Sextet, Above, EncodeUtf8;
    TwoDigits(first, b - 0x80, c);
    EncodedForms(c);
  }

  lemma ThreeBytes(first: nat, b1: Byte, b2: Byte, c: nat)
    requires IsTail(b1) && IsTail(b2) && first < 16 && c == Shifted(Shifted(first, b1), b2) && 0x800 <= c < 0x10000
    ensures EncodeUtf8(c) == [0xE0 + first, b1, b2]
  {
    hide Sextet, Above, EncodeUtf8;
    ThreeDigits(first, b1 - 0x80, b2 - 0x80, c);
    EncodedForms(c);
  }

  lemma FourBytes(first: nat, b1: Byte, b2: Byte, b3: Byte, c: nat)
    requires IsTail(b1) && IsTail(b2) && IsTail(b3) && first < 8
    requires c == Shifted(Shifted(Shifted(first, b1), b2), b3) && 0x10000 <= c <= 0x10FFFF
    ensures EncodeUtf8(c) == [0xF0 + first, b1, b2, b3]
  {
    hide Sextet, Above, EncodeUtf8;
    FourDigits(first, b1 - 0x80, b2 - 0x80, b3 - 0x80, c);
    EncodedForms(c);
  }

  /** Encoding what was decoded gives back the bytes, so no scalar has two accepted spellings. */
  lemma EncodeDecoded(s: Bytes)
    requires s != [] && DecodeUtf8(s).length > 0
    ensures var r := DecodeUtf8(s);
      IsScalar(r.codepoint) && EncodeUtf8(r.codepoint) == s[..r.length]
  {
    var r := DecodeUtf8(s);
    if r.length == 1 {
      assert s[..1] == [s[0]];
    } else if r.length == 2 {
      TwoBytes(s[0] - 0xC0, s[1], r.codepoint);
      assert s[..2] == [s[0], s[1]];
    } else if r.length == 3 {
      ThreeBytes(s[0] - 0xE0, s[1], s[2], r.codepoint);
      assert s[..3] == [s[0], s[1], s[2]];
    } else {
      FourBytes(s[0] - 0xF0, s[1], s[2], s[3], r.codepoint);
      assert s[..4] == [s[0], s[1], s[2], s[3]];
    }
  }

  /** Decoding looks at no byte behind the sequence. */
  lemma DecodeLocal(s: Bytes, rest: Bytes)
    requires s != [] && DecodeUtf8(s).length > 0
    ensures DecodeUtf8(s + rest) == DecodeUtf8(s)
    ensures DecodeUtf8(s[..DecodeUtf8(s).length] + rest) == DecodeUtf8(s)
  {
  }

  predicate ValidUtf8(s: Bytes) {
    s == [] || (DecodeUtf8(s).length > 0 && ValidUtf8(s[DecodeUtf8(s).length..]))
  }

  lemma {:induction false} ValidAppend(a: Bytes, b: Bytes)
    requires ValidUtf8(a) && ValidUtf8(b)
    ensures ValidUtf8(a + b)
    decreases |a|
  {
    hide DecodeUtf8;
    if a == [] {
      assert a + b == b;
    } else {
      var n := DecodeUtf8(a).length;
      DecodeLocal(a, b);
      ValidAppend(a[n..], b);
      assert (a + b)[n..] == a[n..] + b;
    }
  }

  lemma ValidOne(c: nat)
    requires IsScalar(c)
    ensures ValidUtf8(EncodeUtf8(c))
  {
    DecodeEncoded(c, []);
    assert EncodeUtf8(c) + [] == EncodeUtf8(c);
  }

  /** Only one-byte sequences hold bytes below 0x80. */
  lemma HighBytes(s: Bytes)
    requires s != [] && DecodeUtf8(s).length > 1
    ensures forall i :: 0 <= i < DecodeUtf8(s).length ==> s[i] >= 0x80
  {
  }
}
