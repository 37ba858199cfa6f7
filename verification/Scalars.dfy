/** Arithmetic modulo the group order L: the scalar_ functions of src/ed25519.cpp. */
module Scalars {
  import opened Words
  import opened Congruence
  import opened Bytes

  /** L = 2^252 + 27742317777372353535851937790883648493 */
  const L: nat := 0x10000000_00000000_00000000_00000000_14DEF9DE_A2F79CD6_5812631A_5CF5D3ED

  const kL: Limbs8 := [0x5CF5D3ED, 0x5812631A, 0xA2F79CD6, 0x14DEF9DE, 0, 0, 0, 0x10000000]

  lemma OrderLimbs()
    ensures Value(kL) == L && L % 2 == 1 && 8 * L < Pow32(8)
  {
    Value8(kL);
    PowValues();
  }

  /** scalar_compare: the limb order from the top down is the numeric order. */
  method Compare(a: Limbs8, b: Limbs8) returns (order: int)
    ensures order == if Value(a) < Value(b) then -1 else if Value(a) > Value(b) then 1 else 0
  {
    var i := 8;
    while i > 0
      invariant 0 <= i <= 8 && a[i..] == b[i..]
    {
      if a[i - 1] != b[i - 1] {
        if a[i - 1] < b[i - 1] {
          TopDecides(a, b, i - 1);
          return -1;
        }
        TopDecides(b, a, i - 1);
        return 1;
      }
      i := i - 1;
    }
    assert a == a[0..] && b == b[0..];
    return 0;
  }

  // ---------------------------------------------------------------------------
  // Digits of a limb sequence
  // ---------------------------------------------------------------------------

  lemma {:induction false} ShrBound(x: nat, r: nat)
    requires x < BASE && r <= 32
    ensures Shr(x, r) < Two(32 - r)
  {
    if r == 0 {
      TwoLimbs(1);
      assert Pow32(1) == BASE;
    } else {
      ShrBound(x, r - 1);
    }
  }

  /** The number made of the bits from bit r of limb q up. */
  function High(w: seq<Word>, q: nat, r: nat): nat
    requires q <= |w| && r <= 32
  {
    if q == |w| then 0
    else
      var weight: nat, rest: nat := Two(32 - r), Value(w[q + 1..]);
      Shr(w[q], r) + weight * rest
  }

  lemma HighStep(w: seq<Word>, q: nat, r: nat)
    requires q < |w| && r < 32
    ensures High(w, q, r) == 2 * High(w, q, r + 1) + Shr(w[q], r) % 2
  {
    MulAssoc(2, Two(31 - r), Value(w[q + 1..]));
  }

  lemma HighLimb(w: seq<Word>, q: nat)
    requires q < |w|
    ensures High(w, q, 32) == Value(w[q + 1..])
    ensures High(w, q, 0) == Value(w[q..])
  {
    ShrBound(w[q], 32);
    TwoLimbs(1);
    assert Pow32(1) == BASE && Two(0) == 1;
    ValueSplit(w[q..], 1);
    PrefixStep(w[q..], 0);
    assert w[q..][1..] == w[q + 1..];
  }

  /** The number made of the bits of w from bit position i up. */
  function BitsFrom(w: seq<Word>, i: nat): nat
    requires i <= 32 * |w|
  {
    High(w, i / 32, i % 32)
  }

  /** (w[i / 32] >> (i % 32)) & 1 */
  function BitAt(w: seq<Word>, i: nat): nat
    requires i < 32 * |w|
  {
    Shr(w[i / 32], i % 32) % 2
  }

  /** Reading a number from the top: one more bit doubles what was read and adds the bit. */
  lemma BitStep(w: seq<Word>, i: nat)
    requires i < 32 * |w|
    ensures BitsFrom(w, i) == 2 * BitsFrom(w, i + 1) + BitAt(w, i)
  {
    var q, r := i / 32, i % 32;
    HighStep(w, q, r);
    if r + 1 == 32 {
      assert (i + 1) / 32 == q + 1 && (i + 1) % 32 == 0;
      HighLimb(w, q);
      if q + 1 < |w| {
        HighLimb(w, q + 1);
      }
    } else {
      assert (i + 1) / 32 == q && (i + 1) % 32 == r + 1;
    }
  }

  /** The same for the four bit digits of the multiplication window. */
  lemma NibbleStep(w: seq<Word>, i: nat)
    requires i + 4 <= 32 * |w| && i % 4 == 0
    ensures BitsFrom(w, i) == 16 * BitsFrom(w, i + 4) + Shr(w[i / 32], i % 32) % 16
  {
    PairStep(w, i);
    PairStep(w, i + 2);
    SameLimb(i, 1);
    SameLimb(i, 2);
    SameLimb(i, 3);
    NibbleBits(w[i / 32], i % 32);
  }

  lemma PairStep(w: seq<Word>, i: nat)
    requires i + 2 <= 32 * |w|
    ensures BitsFrom(w, i) == 4 * BitsFrom(w, i + 2) + 2 * BitAt(w, i + 1) + BitAt(w, i)
  {
    BitStep(w, i);
    BitStep(w, i + 1);
  }

  lemma SameLimb(i: nat, k: nat)
    requires i % 4 == 0 && k < 4
    ensures (i + k) / 32 == i / 32 && (i + k) % 32 == i % 32 + k
  {
  }

  lemma NibbleBits(x: nat, r: nat)
    ensures Shr(x, r) % 16 == Shr(x, r) % 2 + 2 * (Shr(x, r + 1) % 2)
                            + 4 * (Shr(x, r + 2) % 2) + 8 * (Shr(x, r + 3) % 2)
  {
    var y := Shr(x, r);
    assert Shr(x, r + 1) == y / 2 && Shr(x, r + 2) == y / 2 / 2 && Shr(x, r + 3) == y / 2 / 2 / 2;
  }

  lemma AllBits(w: seq<Word>)
    ensures BitsFrom(w, 0) == Value(w) && BitsFrom(w, 32 * |w|) == 0
  {
    if w != [] {
      HighLimb(w, 0);
    }
    assert (32 * |w|) / 32 == |w| && w[0..] == w;
  }

  // ---------------------------------------------------------------------------
  // Reduction modulo L
  // ---------------------------------------------------------------------------

  lemma NoLimbsYet(start: seq<Word>, bit: Word)
    ensures Value(start[..0]) == 0 && bit * Pow32(0) == bit
  {
  }

  /** Doubling the remainder and bringing in the next bit, without losing one. */
  method ShiftIn(remainder: array<Word>, bit: Word)
    requires remainder.Length == 8 && bit <= 1
    requires 2 * Value(remainder[..]) + bit < Pow32(8)
    modifies remainder
    ensures Value(remainder[..]) == 2 * Value(old(remainder[..])) + bit
  {
    var carry: Word := bit;
    ghost var start := remainder[..];
    NoLimbsYet(start, bit);
    hide Value, Pow32;
    for i := 0 to 8
      invariant carry <= 1
      invariant forall k :: i <= k < 8 ==> remainder[k] == start[k]
      invariant Value(remainder[..i]) + carry * Pow32(i) == Value(start[..i]) + Value(start[..i]) + bit
    {
      ghost var done := remainder[..i];
      var old0: Acc := remainder[i];
      var shifted: Acc := old0 * 2 + carry;
      remainder[i] := shifted % BASE;
      assert remainder[..][..i] == done && remainder[..][..i + 1] == remainder[..i + 1];
      AddStep(start, start, remainder[..], i, carry, shifted / BASE, bit);
      carry := shifted / BASE;
    }
    assert remainder[..8] == remainder[..] && start[..8] == start;
    if carry == 1 {
      assert false;
    }
  }

  /** One step of the long division keeps the remainder of the bits read so far. */
  lemma RemainderStep(t: nat, bit: nat, reduced: nat)
    requires bit <= 1
    requires reduced == if 2 * (t % L) + bit >= L then 2 * (t % L) + bit - L else 2 * (t % L) + bit
    ensures reduced == (2 * t + bit) % L
  {
    var q, r := t / L, t % L;
    assert t == q * L + r;
    var c := if 2 * r + bit >= L then 1 else 0;
    MulAssoc(2, q, L);
    Weigh(2 * q, c, 0, L);
    ModUnique(2 * t + bit, 2 * q + c, reduced, L);
  }

  lemma DivisionStep(wide: seq<Word>, bit: nat, reduced: nat)
    requires |wide| == 16 && 0 < bit <= 512
    requires var shifted := 2 * (BitsFrom(wide, bit) % L) + BitAt(wide, bit - 1);
      reduced == if shifted >= L then shifted - L else shifted
    ensures reduced == BitsFrom(wide, bit - 1) % L
  {
    BitStep(wide, bit - 1);
    RemainderStep(BitsFrom(wide, bit), BitAt(wide, bit - 1), reduced);
  }

  /** The compare-and-subtract at the end of every addition and division step. */
  method SubtractOrder(a: Limbs8) returns (out: Limbs8)
    ensures Value(out) == if Value(a) >= L then Value(a) - L else Value(a)
  {
    OrderLimbs();
    out := a;
    var order := Compare(a, kL);
    if order >= 0 {
      var borrow;
      out, borrow := SubtractLimbs(a, kL);
    }
  }

  /** The 512 bit value modulo L, by binary long division from the top bit. */
  method Reduce(wide: seq<Word>) returns (out: Limbs8)
    requires |wide| == 16
    ensures Value(out) == Value(wide) % L
  {
    OrderLimbs();
    var remainder := new Word[8](_ => 0);
    ValueOfZeros(remainder[..]);
    AllBits(wide);
    var bit := 512;
    while bit > 0
      invariant 0 <= bit <= 512
      invariant remainder.Length == 8 && fresh(remainder)
      invariant Value(remainder[..]) == BitsFrom(wide, bit) % L
    {
      var index := bit - 1;
      var next: Word := BitAt(wide, index);
      ShiftIn(remainder, next);
      var reduced := SubtractOrder(remainder[..]);
      remainder := ToArray(reduced);
      DivisionStep(wide, bit, Value(remainder[..]));
      bit := index;
    }
    out := remainder[..];
  }

  lemma RemainderBelow(x: nat)
    ensures x % L < L
  {
  }

  /** a * b mod L for any two 256 bit values. */
  method Mul(a: Limbs8, b: Limbs8) returns (out: Limbs8)
    ensures Value(out) == (Value(a) * Value(b)) % L
  {
    var wide := MultiplyLimbs(b, a);
    out := Reduce(wide);
  }

  method Add(a: Limbs8, b: Limbs8) returns (out: Limbs8)
    requires Value(a) < L && Value(b) < L
    ensures Value(out) == (Value(a) + Value(b)) % L < L
  {
    OrderLimbs();
    var sum, carry := AddLimbs(a, b);
    assert carry == 0;
    out := SubtractOrder(sum);
    ModUnique(Value(sum), if Value(sum) >= L then 1 else 0, Value(out), L);
  }

  // ---------------------------------------------------------------------------
  // Scalars as bytes
  // ---------------------------------------------------------------------------

  function LimbFromBytes(b0: Byte, b1: Byte, b2: Byte, b3: Byte): Word
  {
    var low: nat, x1: nat, x2: nat, x3: nat := b0, b1, b2, b3;
    low + 0x100 * x1 + 0x10000 * x2 + 0x1000000 * x3
  }

  /** The limbs that thirty-two little-endian bytes spell. */
  function Decoded(bytes: seq<Byte>): Limbs8
    requires |bytes| == 32
  {
    seq(8, i requires 0 <= i < 8 =>
      LimbFromBytes(bytes[4 * i], bytes[4 * i + 1], bytes[4 * i + 2], bytes[4 * i + 3]))
  }

  /** Byte k of the limbs. */
  function ByteAt(a: Limbs8, k: nat): Byte
    requires k < 32
  {
    Shr(a[k / 4], 8 * (k % 4)) % 0x100
  }

  function Encoded(a: Limbs8): seq<Byte>
  {
    seq(32, k requires 0 <= k < 32 => ByteAt(a, k))
  }

  lemma {:induction false} LeAppend(a: Bytes, b: Bytes)
    ensures LeValue(a + b) == LeValue(a) + Pow256(|a|) * LeValue(b)
  {
    if a == [] {
      assert a + b == b;
    } else {
      assert (a + b)[0] == a[0] && (a + b)[1..] == a[1..] + b;
      LeAppend(a[1..], b);
      MulAssoc(256, Pow256(|a| - 1), LeValue(b));
    }
  }

  lemma LimbIsLe(b0: Byte, b1: Byte, b2: Byte, b3: Byte)
    ensures LeValue([b0, b1, b2, b3]) == LimbFromBytes(b0, b1, b2, b3)
  {
    assert [b3][1..] == [] && LeValue([b3]) == b3;
    assert [b2, b3][1..] == [b3] && LeValue([b2, b3]) == b2 + 256 * b3;
    assert [b1, b2, b3][1..] == [b2, b3] && LeValue([b1, b2, b3]) == b1 + 256 * (b2 + 256 * b3);
    assert [b0, b1, b2, b3][1..] == [b1, b2, b3];
  }

  lemma {:induction false} PowersAgree(n: nat)
    ensures Pow256(4 * n) == Pow32(n)
  {
    if n > 0 {
      PowersAgree(n - 1);
      assert Pow256(4 * n - 3) == 256 * Pow256(4 * n - 4) && Pow256(4 * n - 1) == 256 * Pow256(4 * n - 2);
    }
  }

  lemma LastFour(bytes: Bytes, n: nat) returns (top: Bytes)
    requires |bytes| == 4 * n + 4
    ensures top == [bytes[4 * n], bytes[4 * n + 1], bytes[4 * n + 2], bytes[4 * n + 3]] && bytes == bytes[..4 * n] + top
    ensures |top| == 4
  {
    top := bytes[4 * n..];
  }

  lemma LastLimb(limbs: seq<nat>)
    requires limbs != []
    ensures Value(limbs) == Value(limbs[..|limbs| - 1]) + limbs[|limbs| - 1] * Pow32(|limbs| - 1)
  {
  }

  lemma MulCommutes(x: int, y: int)
    ensures x * y == y * x
  {
  }

  /** Limbs read four bytes at a time spell the little-endian number of the bytes. */
  lemma {:induction false} LimbsAreLittleEndian(bytes: Bytes, limbs: seq<nat>)
    requires |bytes| == 4 * |limbs|
    requires forall i :: 0 <= i < |limbs| ==>
      limbs[i] == LimbFromBytes(bytes[4 * i], bytes[4 * i + 1], bytes[4 * i + 2], bytes[4 * i + 3])
    ensures Value(limbs) == LeValue(bytes)
  {
    if limbs != [] {
      var n := |limbs| - 1;
      var top := LastFour(bytes, n);
      LastLimb(limbs);
      hide *;
      LimbsAreLittleEndian(bytes[..4 * n], limbs[..n]);
      LeAppend(bytes[..4 * n], top);
      LimbIsLe(top[0], top[1], top[2], top[3]);
      PowersAgree(n);
      MulCommutes(Pow32(n), limbs[n]);
    } else {
      assert bytes == [];
    }
  }

  /** The scalar of thirty-two bytes is their little-endian number, and the bytes of a scalar spell it. */
  lemma ScalarIsLittleEndian(bytes: Bytes, a: Limbs8)
    requires |bytes| == 32
    ensures Value(Decoded(bytes)) == LeValue(bytes) && LeValue(Encoded(a)) == Value(a)
  {
    LimbsAreLittleEndian(bytes, Decoded(bytes));
    LimbsAreLittleEndian(Encoded(a), Decoded(Encoded(a)));
    BytesRoundTrip(a);
  }

  method FromBytes(bytes: seq<Byte>) returns (out: Limbs8)
    requires |bytes| == 32
    ensures out == Decoded(bytes) && Value(out) == LeValue(bytes)
  {
    var buffer := new Word[8](_ => 0);
    for i := 0 to 8
      invariant forall k :: 0 <= k < i ==>
        buffer[k] == LimbFromBytes(bytes[4 * k], bytes[4 * k + 1], bytes[4 * k + 2], bytes[4 * k + 3])
    {
      buffer[i] := LimbFromBytes(bytes[4 * i], bytes[4 * i + 1], bytes[4 * i + 2], bytes[4 * i + 3]);
    }
    out := buffer[..];
    ScalarIsLittleEndian(bytes, out);
  }

  method ToBytes(a: Limbs8) returns (out: seq<Byte>)
    ensures |out| == 32 && out == Encoded(a) && LeValue(out) == Value(a)
  {
    var buffer := new Byte[32](_ => 0);
    for i := 0 to 8
      invariant forall k :: 0 <= k < 4 * i ==> buffer[k] == ByteAt(a, k)
    {
      buffer[4 * i] := ByteAt(a, 4 * i);
      buffer[4 * i + 1] := ByteAt(a, 4 * i + 1);
      buffer[4 * i + 2] := ByteAt(a, 4 * i + 2);
      buffer[4 * i + 3] := ByteAt(a, 4 * i + 3);
    }
    out := buffer[..];
    ScalarIsLittleEndian(out, a);
  }

  /** scalar_to_bytes, stated by what the reader gets back. */
  method ToBytesOf(a: Limbs8, ghost n: nat) returns (out: seq<Byte>)
    requires Value(a) == n
    ensures |out| == 32 && Value(Decoded(out)) == n
  {
    out := ToBytes(a);
    BytesRoundTrip(a);
  }

  lemma ShrZero(x: nat)
    ensures Shr(x, 0) == x
  {
  }

  lemma LimbBytes(x: Word)
    ensures Shr(x, 0) % 0x100 + 0x100 * (Shr(x, 8) % 0x100) + 0x10000 * (Shr(x, 16) % 0x100)
          + 0x1000000 * (Shr(x, 24) % 0x100) == x
  {
    hide Shr;
    ShrZero(x);
    ShrPlus8(x, 0);
    ShrPlus8(x, 8);
    ShrPlus8(x, 16);
  }

  lemma ByteOfLimb(b0: Byte, b1: Byte, b2: Byte, b3: Byte)
    ensures var x := LimbFromBytes(b0, b1, b2, b3);
      Shr(x, 0) % 0x100 == b0 && Shr(x, 8) % 0x100 == b1 && Shr(x, 16) % 0x100 == b2 && Shr(x, 24) % 0x100 == b3
  {
    hide Shr;
    var x := LimbFromBytes(b0, b1, b2, b3);
    ShrZero(x);
    var y3: nat := b3;
    var y2: nat := b2 + 0x100 * y3;
    var y1: nat := b1 + 0x100 * y2;
    assert x == b0 + 0x100 * y1;
    LowByte(b0, y1);
    LowByte(b1, y2);
    LowByte(b2, y3);
    ShrPlus8(x, 0);
    ShrPlus8(x, 8);
    ShrPlus8(x, 16);
  }

  lemma LowByte(low: nat, high: nat)
    requires low < 0x100
    ensures (low + 0x100 * high) % 0x100 == low && (low + 0x100 * high) / 0x100 == high
  {
  }

  lemma LimbOfBytes(a: Limbs8, i: nat)
    requires i < 8
    ensures Encoded(a)[4 * i] == Shr(a[i], 0) % 0x100
    ensures Encoded(a)[4 * i + 1] == Shr(a[i], 8) % 0x100
    ensures Encoded(a)[4 * i + 2] == Shr(a[i], 16) % 0x100
    ensures Encoded(a)[4 * i + 3] == Shr(a[i], 24) % 0x100
  {
  }

  /** The two byte conversions are inverse to each other. */
  lemma BytesRoundTrip(a: Limbs8)
    ensures Decoded(Encoded(a)) == a
  {
    hide Shr, ByteAt;
    forall i | 0 <= i < 8
      ensures Decoded(Encoded(a))[i] == a[i]
    {
      LimbOfBytes(a, i);
      LimbBytes(a[i]);
    }
  }

  lemma LimbsRoundTrip(bytes: seq<Byte>)
    requires |bytes| == 32
    ensures Encoded(Decoded(bytes)) == bytes
  {
    forall k | 0 <= k < 32
      ensures Encoded(Decoded(bytes))[k] == bytes[k]
    {
      var i := k / 4;
      ByteOfLimb(bytes[4 * i], bytes[4 * i + 1], bytes[4 * i + 2], bytes[4 * i + 3]);
      assert k == 4 * i || k == 4 * i + 1 || k == 4 * i + 2 || k == 4 * i + 3;
    }
  }

  /** The four bit digit that the multiplication window reads from byte w / 2. */
  function WindowDigit(bytes: seq<Byte>, w: nat): (digit: nat)
    requires |bytes| == 32 && w < 64
    ensures digit < 16
  {
    var packed: nat := bytes[w / 2];
    if w % 2 == 0 then packed % 16 else packed / 16
  }

  lemma NibbleOfByte(y: nat)
    ensures (y % 0x100) % 16 == y % 16 && (y % 0x100) / 16 == (y / 16) % 16
  {
    var high, low := y / 16 / 16, y % 16;
    var mid := y / 16 % 16;
    var rest := 16 * mid + low;
    assert y == 0x100 * high + rest;
    ModUnique(y, high, rest, 0x100);
    ModUnique(rest, mid, low, 16);
  }

  lemma WindowPosition(w: nat)
    requires w < 64
    ensures 4 * w / 32 == w / 2 / 4 < 8
    ensures (4 * w) % 32 == 8 * (w / 2 % 4) + 4 * (w % 2)
  {
  }

  lemma WindowDigitIsNibble(a: Limbs8, w: nat)
    requires w < 64
    ensures 4 * w / 32 < 8
    ensures WindowDigit(Encoded(a), w) == Shr(a[4 * w / 32], (4 * w) % 32) % 16
  {
    WindowPosition(w);
    var x, r := a[4 * w / 32], 8 * (w / 2 % 4);
    assert Encoded(a)[w / 2] == Shr(x, r) % 0x100;
    NibbleOfByte(Shr(x, r));
    ShrPlus4(x, r);
  }

  /** The number made of the window digits from w up. */
  function WindowsFrom(a: Limbs8, w: nat): nat
    requires w <= 64
  {
    BitsFrom(a, 4 * w)
  }

  lemma WindowStep(a: Limbs8, w: nat)
    requires w < 64
    ensures WindowsFrom(a, w) == 16 * WindowsFrom(a, w + 1) + WindowDigit(Encoded(a), w)
  {
    hide WindowDigit, Encoded, BitsFrom, Shr;
    WindowDigitIsNibble(a, w);
    NibbleStep(a, 4 * w);
  }

  lemma AllWindows(a: Limbs8)
    ensures WindowsFrom(a, 64) == 0 && WindowsFrom(a, 0) == Value(a)
  {
    AllBits(a);
  }
}
