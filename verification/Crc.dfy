/** A shift register with linear, injective steps, over any register type. */
module ShiftRegister {
  import opened Bytes

  /** xor adds, step shifts one bit out, widen reads a byte, lift shifts one byte up. A byte is
      absorbed by adding it and taking width steps. fits(k, w) says w leaves k bytes of room. */
  datatype Register<!R> = Register(
    zero: R,
    xor: (R, R) -> R,
    step: R -> R,
    widen: Byte -> R,
    lift: R -> R,
    fits: (nat, R) -> bool,
    width: nat)

  function Steps<R>(a: Register<R>, v: R, n: nat): R
    decreases n
  {
    if n == 0 then v else Steps(a, a.step(v), n - 1)
  }

  function Absorb<R>(a: Register<R>, state: R, b: Byte): R {
    Steps(a, a.xor(state, a.widen(b)), a.width)
  }

  /** The reference definition of the checksum register. */
  function Run<R>(a: Register<R>, state: R, bytes: Bytes): R
    decreases bytes
  {
    if bytes == [] then state else Run(a, Absorb(a, state, bytes[0]), bytes[1..])
  }

  ghost predicate LinearAt<R>(a: Register<R>, x: R, y: R) {
    a.step(a.xor(x, y)) == a.xor(a.step(x), a.step(y))
  }

  ghost predicate InjectiveAt<R>(a: Register<R>, x: R, y: R) {
    a.step(x) == a.step(y) ==> x == y
  }

  ghost predicate CancelsAt<R>(a: Register<R>, x: R, y: R) {
    a.xor(a.xor(x, y), y) == x && a.xor(a.xor(x, y), x) == y && a.xor(x, a.zero) == x
  }

  ghost predicate AssociatesAt<R>(a: Register<R>, x: R, y: R, z: R) {
    a.xor(x, a.xor(y, z)) == a.xor(a.xor(x, y), z)
  }

  ghost predicate LiftsAt<R>(a: Register<R>, w: R) {
    a.fits(1, w) ==> Steps(a, a.lift(w), a.width) == w
  }

  function Join<R>(a: Register<R>, b: Byte, w: R): R {
    a.xor(a.widen(b), a.lift(w))
  }

  ghost predicate JoinInjectiveAt<R>(a: Register<R>, b: Byte, w: R, b': Byte, w': R) {
    a.fits(1, w) && a.fits(1, w') && Join(a, b, w) == Join(a, b', w') ==> b == b' && w == w'
  }

  ghost predicate JoinFitsAt<R>(a: Register<R>, k: nat, b: Byte, w: R) {
    a.fits(k + 1, w) ==> a.fits(k, Join(a, b, w))
  }

  ghost predicate ZeroFitsAt<R>(a: Register<R>, k: nat) {
    k <= 4 ==> a.fits(k, a.zero)
  }

  ghost predicate Lawful<R(!new)>(a: Register<R>) {
    && (forall x, y :: LinearAt(a, x, y))
    && (forall x, y :: InjectiveAt(a, x, y))
    && (forall x, y :: CancelsAt(a, x, y))
    && (forall x, y, z :: AssociatesAt(a, x, y, z))
    && (forall w :: LiftsAt(a, w))
    && (forall b, w, b', w' :: JoinInjectiveAt(a, b, w, b', w'))
    && (forall k, b, w :: JoinFitsAt(a, k, b, w))
    && (forall k :: ZeroFitsAt(a, k))
  }

  lemma {:induction false} StepsLinear<R(!new)>(a: Register<R>, x: R, y: R, n: nat)
    requires Lawful(a)
    ensures Steps(a, a.xor(x, y), n) == a.xor(Steps(a, x, n), Steps(a, y, n))
    decreases n
  {
    if n > 0 {
      assert LinearAt(a, x, y);
      StepsLinear(a, a.step(x), a.step(y), n - 1);
    }
  }

  lemma {:induction false} StepsInjective<R(!new)>(a: Register<R>, x: R, y: R, n: nat)
    requires Lawful(a) && Steps(a, x, n) == Steps(a, y, n)
    ensures x == y
    decreases n
  {
    if n > 0 {
      StepsInjective(a, a.step(x), a.step(y), n - 1);
      assert InjectiveAt(a, x, y);
    }
  }

  lemma {:induction false} StepsAdd<R>(a: Register<R>, v: R, m: nat, n: nat)
    ensures Steps(a, v, m + n) == Steps(a, Steps(a, v, m), n)
    decreases m
  {
    if m > 0 {
      StepsAdd(a, a.step(v), m - 1, n);
    }
  }

  lemma {:induction false} RunConcat<R>(a: Register<R>, state: R, x: Bytes, y: Bytes)
    ensures Run(a, state, x + y) == Run(a, Run(a, state, x), y)
    decreases x
  {
    if x == [] {
      assert x + y == y;
    } else {
      assert (x + y)[1..] == x[1..] + y && (x + y)[0] == x[0];
      RunConcat(a, Absorb(a, state, x[0]), x[1..], y);
    }
  }

  /** Different registers stay different under the same input. */
  lemma {:induction false} RunInjective<R(!new)>(a: Register<R>, x: R, y: R, bytes: Bytes)
    requires Lawful(a) && Run(a, x, bytes) == Run(a, y, bytes)
    ensures x == y
    decreases bytes
  {
    if bytes != [] {
      var b := a.widen(bytes[0]);
      RunInjective(a, Absorb(a, x, bytes[0]), Absorb(a, y, bytes[0]), bytes[1..]);
      StepsInjective(a, a.xor(x, b), a.xor(y, b), a.width);
      assert CancelsAt(a, x, b) && CancelsAt(a, y, b);
    }
  }

  /** At most four bytes as one register word, first byte lowest. */
  function Packed<R>(a: Register<R>, bytes: Bytes): R {
    if bytes == [] then a.zero else Join(a, bytes[0], Packed(a, bytes[1..]))
  }

  lemma {:induction false} PackedFits<R(!new)>(a: Register<R>, bytes: Bytes)
    requires Lawful(a) && |bytes| <= 4
    ensures a.fits(4 - |bytes|, Packed(a, bytes))
  {
    if bytes == [] {
      assert ZeroFitsAt(a, 4);
    } else {
      PackedFits(a, bytes[1..]);
      assert JoinFitsAt(a, 4 - |bytes|, bytes[0], Packed(a, bytes[1..]));
    }
  }

  ghost predicate RoomShrinks<R(!new)>(a: Register<R>) {
    forall k: nat, w :: RoomAt(a, k, w)
  }

  ghost predicate RoomAt<R>(a: Register<R>, k: nat, w: R) {
    1 <= k && a.fits(k, w) ==> a.fits(1, w)
  }

  /** Up to four bytes act like one word added to the register. */
  lemma {:induction false} RunPacked<R(!new)>(a: Register<R>, state: R, bytes: Bytes)
    requires Lawful(a) && RoomShrinks(a) && |bytes| <= 4
    ensures Run(a, state, bytes) == Steps(a, a.xor(state, Packed(a, bytes)), a.width * |bytes|)
    decreases bytes
  {
    if bytes == [] {
      assert CancelsAt(a, state, state);
      assert a.width * 0 == 0;
    } else {
      var b, rest := a.widen(bytes[0]), Packed(a, bytes[1..]);
      PackedFits(a, bytes[1..]);
      assert RoomAt(a, 4 - |bytes[1..]|, rest);
      assert LiftsAt(a, rest);
      RunPacked(a, Absorb(a, state, bytes[0]), bytes[1..]);
      StepsLinear(a, a.xor(state, b), a.lift(rest), a.width);
      assert AssociatesAt(a, state, b, a.lift(rest));
      StepsAdd(a, a.xor(state, Packed(a, bytes)), a.width, a.width * |bytes[1..]|);
      assert a.width * |bytes| == a.width + a.width * |bytes[1..]|;
    }
  }

  lemma {:induction false} PackedInjective<R(!new)>(a: Register<R>, x: Bytes, y: Bytes)
    requires Lawful(a) && RoomShrinks(a)
    requires |x| == |y| <= 4 && Packed(a, x) == Packed(a, y)
    ensures x == y
  {
    if x != [] {
      PackedFits(a, x[1..]);
      PackedFits(a, y[1..]);
      assert RoomAt(a, 4 - |x[1..]|, Packed(a, x[1..])) && RoomAt(a, 4 - |y[1..]|, Packed(a, y[1..]));
      assert JoinInjectiveAt(a, x[0], Packed(a, x[1..]), y[0], Packed(a, y[1..]));
      PackedInjective(a, x[1..], y[1..]);
      assert x == [x[0]] + x[1..] && y == [y[0]] + y[1..];
    }
  }

  lemma XorCancels<R(!new)>(a: Register<R>, t: R, p: R, q: R)
    requires Lawful(a) && a.xor(t, p) == a.xor(t, q)
    ensures p == q
  {
    assert CancelsAt(a, t, p) && CancelsAt(a, t, q);
  }

  /** From one state, different runs of up to four bytes lead to different states. */
  lemma ShortRunInjective<R(!new)>(a: Register<R>, t: R, x: Bytes, y: Bytes)
    requires Lawful(a) && RoomShrinks(a) && |x| == |y| <= 4 && Run(a, t, x) == Run(a, t, y)
    ensures x == y
  {
    hide *;
    RunPacked(a, t, x);
    RunPacked(a, t, y);
    var n := a.width * |x|;
    StepsInjective(a, a.xor(t, Packed(a, x)), a.xor(t, Packed(a, y)), n);
    XorCancels(a, t, Packed(a, x), Packed(a, y));
    PackedInjective(a, x, y);
  }

  /** Inputs that differ only inside four consecutive bytes never reach the same register. */
  lemma BurstDetected<R(!new)>(a: Register<R>, s: R, before: Bytes, x: Bytes, y: Bytes, after: Bytes)
    requires Lawful(a) && RoomShrinks(a) && |x| == |y| <= 4 && x != y
    ensures Run(a, s, before + x + after) != Run(a, s, before + y + after)
  {
    hide *;
    var t := Run(a, s, before);
    RunConcat(a, s, before + x, after);
    RunConcat(a, s, before + y, after);
    RunConcat(a, s, before, x);
    RunConcat(a, s, before, y);
    if Run(a, s, before + x + after) == Run(a, s, before + y + after) {
      RunInjective(a, Run(a, t, x), Run(a, t, y), after);
      ShortRunInjective(a, t, x, y);
    }
  }
}

/** Exclusive or on natural numbers, bit by bit. */
module Xors {
  import opened Words

  function Xor(x: nat, y: nat): nat
    decreases x + y
  {
    if x == 0 && y == 0 then 0 else (x + y) % 2 + 2 * Xor(x / 2, y / 2)
  }

  lemma Rejoin(bit: nat, q: nat)
    requires bit < 2
    ensures (bit + 2 * q) % 2 == bit && (bit + 2 * q) / 2 == q
  {
  }

  lemma Parity(x: nat, y: nat, z: nat)
    ensures (x + (y + z) % 2) % 2 == ((x + y) % 2 + z) % 2
  {
    assert x + (y + z) % 2 == (x + y) % 2 + z + 2 * ((x + y) / 2 - (y + z) / 2);
  }

  lemma {:induction false} Halves(x: nat, y: nat)
    ensures Xor(x, y) % 2 == (x + y) % 2 && Xor(x, y) / 2 == Xor(x / 2, y / 2)
  {
    Rejoin((x + y) % 2, Xor(x / 2, y / 2));
  }

  lemma {:induction false} Agree(x: nat, y: nat)
    requires x % 2 == y % 2 && x / 2 == y / 2
    ensures x == y
  {
  }

  lemma {:induction false} Commutes(x: nat, y: nat)
    ensures Xor(x, y) == Xor(y, x)
    decreases x + y
  {
    if x + y > 0 {
      Commutes(x / 2, y / 2);
    }
  }

  lemma {:induction false} Associates(x: nat, y: nat, z: nat)
    ensures Xor(x, Xor(y, z)) == Xor(Xor(x, y), z)
    decreases x + y + z
  {
    if x + y + z > 0 {
      var right, left := Xor(y, z), Xor(x, y);
      Halves(y, z);
      Halves(x, y);
      Associates(x / 2, y / 2, z / 2);
      Halves(x, right);
      Halves(left, z);
      ParityOf(x, y, z, right, left);
      Agree(Xor(x, right), Xor(left, z));
    }
  }

  lemma ParityOf(x: nat, y: nat, z: nat, right: nat, left: nat)
    requires right % 2 == (y + z) % 2 && left % 2 == (x + y) % 2
    ensures (x + right) % 2 == (left + z) % 2
  {
    Parity(x, y, z);
    Parity(0, x, right);
    Parity(0, left, z);
    Parity(x, right, 0);
    Parity(z, left, 0);
  }

  lemma {:induction false} Self(x: nat)
    ensures Xor(x, x) == 0 && Xor(x, 0) == x
  {
    if x > 0 {
      Self(x / 2);
    }
  }

  lemma Cancels(x: nat, y: nat)
    ensures Xor(Xor(x, y), y) == x && Xor(Xor(x, y), x) == y
  {
    Associates(x, y, y);
    Self(y);
    Self(x);
    Commutes(x, y);
    Associates(y, x, x);
  }

  lemma Odd(x: nat, y: nat)
    ensures (x + y) % 2 != 0 <==> (x % 2 != 0) != (y % 2 != 0)
  {
  }

  /** A common term moves out of a sum, or cancels. */
  lemma Medial(p: nat, u: nat, v: nat)
    ensures Xor(Xor(p, u), Xor(p, v)) == Xor(u, v)
    ensures Xor(Xor(p, u), v) == Xor(p, Xor(u, v)) == Xor(u, Xor(p, v))
  {
    Associates(p, u, v);
    Associates(u, p, v);
    Commutes(p, u);
    Associates(Xor(u, p), p, v);
    Cancels(u, p);
  }

  lemma {:induction false} Bound(x: nat, y: nat, n: nat)
    requires x < Two(n) && y < Two(n)
    ensures Xor(x, y) < Two(n)
  {
    if n > 0 {
      Bound(x / 2, y / 2, n - 1);
    }
  }

  lemma TwoWord()
    ensures Two(32) == BASE && Two(31) == 0x8000_0000 && Two(8) == 256
  {
    TwoLimbs(1);
    assert Pow32(1) == BASE;
    assert Two(8) == 256;
    TwoAdd(1, 31);
  }

  /** x ^ y on std::uint32_t */
  function Xor32(x: Word, y: Word): Word {
    TwoWord();
    Bound(x, y, 32);
    Xor(x, y)
  }

  lemma {:induction false} LowBit(low: nat, rest: nat)
    ensures Xor(low, 2 * rest) == low % 2 + 2 * Xor(low / 2, rest)
  {
    assert (2 * rest) / 2 == rest && (low + 2 * rest) % 2 == low % 2;
  }

  lemma HalfBelow(low: nat, bound: nat)
    requires low < 2 * bound
    ensures low / 2 < bound && low == low % 2 + 2 * (low / 2)
  {
  }

  /** Disjoint low and high parts add up. */
  lemma {:induction false} LowHigh(low: nat, high: nat, k: nat)
    requires low < Two(k)
    ensures Xor(low, Two(k) * high) == low + Two(k) * high
  {
    if k == 0 {
      Self(high);
      Commutes(0, high);
    } else {
      var rest: nat := Two(k - 1) * high;
      assert Two(k) * high == 2 * rest by { MulAssoc(2, Two(k - 1), high); }
      HalfBelow(low, Two(k - 1));
      LowHigh(low / 2, high, k - 1);
      LowBit(low, rest);
    }
  }

  lemma {:induction false} ShrXor(x: nat, y: nat, k: nat)
    ensures Shr(Xor(x, y), k) == Xor(Shr(x, k), Shr(y, k))
  {
    if k > 0 {
      ShrXor(x, y, k - 1);
      Halves(Shr(x, k - 1), Shr(y, k - 1));
    }
  }
}

/** CRC-32 as src/hash.cpp computes it: a table of 256 entries driven byte by byte. */
module Crc {
  import opened Bytes
  import opened Words
  import opened Xors
  import opened ShiftRegister

  const POLYNOMIAL: Word := 0xEDB88320

  /** One step of the reflected shift register. */
  function ShiftBit(v: Word): Word {
    if v % 2 != 0 then Xor32(POLYNOMIAL, v / 2) else v / 2
  }

  /** w << 8 */
  function LiftByte(w: Word): Word {
    var wide: nat := w;
    (256 * wide) % BASE
  }

  function Fits(k: nat, w: Word): bool {
    k <= 4 && w < Pow256(4 - k)
  }

  function WidenByte(b: Byte): Word {
    var wide: Word := b;
    wide
  }

  function Bits32(): Register<Word> {
    Register<Word>.Register(0, Xor32, ShiftBit, WidenByte, LiftByte, Fits, 8)
  }

  /** The bitwise reference: each byte is added to the register and eight bits shifted out. */
  function Crc32From(state: Word, bytes: Bytes): Word {
    Run(Bits32(), state, bytes)
  }

  function Crc32(bytes: Bytes): Word {
    Xor32(Crc32From(0xFFFF_FFFF, bytes), 0xFFFF_FFFF)
  }

  // ---------------------------------------------------------------------------
  // The laws of the register
  // ---------------------------------------------------------------------------

  lemma ShiftLinear(x: Word, y: Word)
    ensures ShiftBit(Xor32(x, y)) == Xor32(ShiftBit(x), ShiftBit(y))
  {
    Halves(x, y);
    Odd(x, y);
    Medial(POLYNOMIAL, x / 2, y / 2);
  }

  lemma TopBit(x: nat)
    requires x < 0x8000_0000
    ensures Xor(POLYNOMIAL, x) >= 0x8000_0000
  {
    if Xor(POLYNOMIAL, x) < 0x8000_0000 {
      TwoWord();
      Bound(Xor(POLYNOMIAL, x), x, 31);
      Cancels(POLYNOMIAL, x);
    }
  }

  lemma ShiftInjective(x: Word, y: Word)
    requires ShiftBit(x) == ShiftBit(y)
    ensures x == y
  {
    TopBit(x / 2);
    TopBit(y / 2);
    Cancels(POLYNOMIAL, x / 2);
    Cancels(POLYNOMIAL, y / 2);
  }

  /** Low zero bits are only shifted out. */
  lemma {:induction false} ShiftOut(x: Word, high: nat, k: nat)
    requires x == Two(k) * high
    ensures Steps(Bits32(), x, k) == high
    decreases k
  {
    if k > 0 {
      MulAssoc(2, Two(k - 1), high);
      assert x == 2 * (Two(k - 1) * high);
      ShiftOut(x / 2, high, k - 1);
    }
  }

  lemma JoinIsSum(b: Byte, w: Word)
    requires Fits(1, w)
    ensures LiftByte(w) == 256 * w && Join(Bits32(), b, w) == b + 256 * w
  {
    PowValues256();
    assert Pow256(4) == 256 * Pow256(3);
    TwoWord();
    LowHigh(b, w, 8);
  }

  lemma Bits32Laws()
    ensures Lawful(Bits32()) && RoomShrinks(Bits32())
  {
    var a := Bits32();
    forall x, y ensures LinearAt(a, x, y) { ShiftLinear(x, y); }
    forall x, y ensures InjectiveAt(a, x, y) {
      if ShiftBit(x) == ShiftBit(y) {
        ShiftInjective(x, y);
      }
    }
    forall x: Word, y: Word ensures CancelsAt(a, x, y) {
      Cancels(x, y);
      Self(x);
    }
    forall x: Word, y: Word, z: Word ensures AssociatesAt(a, x, y, z) { Associates(x, y, z); }
    forall w ensures LiftsAt(a, w) { Bits32Lifts(w); }
    forall b, w, b', w' ensures JoinInjectiveAt(a, b, w, b', w') { Bits32JoinInjective(b, w, b', w'); }
    forall k: nat, b: Byte, w ensures JoinFitsAt(a, k, b, w) { Bits32JoinFits(k, b, w); }
    forall k: nat ensures ZeroFitsAt(a, k) { }
    forall k: nat, w ensures RoomAt(a, k, w) { Bits32Room(k, w); }
  }

  lemma Bits32Lifts(w: Word)
    ensures LiftsAt(Bits32(), w)
  {
    if Fits(1, w) {
      JoinIsSum(0, w);
      TwoWord();
      ShiftOut(LiftByte(w), w, 8);
    }
  }

  lemma Bits32JoinInjective(b: Byte, w: Word, b': Byte, w': Word)
    ensures JoinInjectiveAt(Bits32(), b, w, b', w')
  {
    if Fits(1, w) && Fits(1, w') {
      JoinIsSum(b, w);
      JoinIsSum(b', w');
    }
  }

  lemma {:induction false} Pow256Mono(m: nat, n: nat)
    requires m <= n
    ensures Pow256(m) <= Pow256(n)
    decreases n
  {
    if m < n {
      Pow256Mono(m, n - 1);
    }
  }

  lemma Bits32Room(k: nat, w: Word)
    ensures RoomAt(Bits32(), k, w)
  {
    if 1 <= k && Fits(k, w) {
      Pow256Mono(4 - k, 3);
    }
  }

  lemma Bits32JoinFits(k: nat, b: Byte, w: Word)
    ensures JoinFitsAt(Bits32(), k, b, w)
  {
    if Fits(k + 1, w) {
      Pow256Mono(3 - k, 3);
      JoinIsSum(b, w);
      assert Pow256(4 - k) == 256 * Pow256(3 - k);
    }
  }

  // ---------------------------------------------------------------------------
  // The table
  // ---------------------------------------------------------------------------

  /** table[i] holds the register i after the given number of steps; the source uses eight. */
  ghost predicate IsTable(table: seq<Word>, bits: nat) {
    |table| == 256 && forall i :: 0 <= i < 256 ==> table[i] == Steps(Bits32(), i, bits)
  }

  method ShiftBits(from: Word, bits: nat) returns (value: Word)
    ensures value == Steps(Bits32(), from, bits)
  {
    value := from;
    for bit := 0 to bits
      invariant Steps(Bits32(), value, bits - bit) == Steps(Bits32(), from, bits)
    {
      value := ShiftBit(value);
    }
  }

  method BuildTable(bits: nat) returns (table: seq<Word>)
    ensures IsTable(table, bits)
  {
    var built := new Word[256](_ => 0);
    for i := 0 to 256
      invariant forall k :: 0 <= k < i ==> built[k] == Steps(Bits32(), k, bits)
    {
      built[i] := ShiftBits(i, bits);
    }
    table := built[..];
  }

  /** One table lookup is eight shifts of the register. */
  lemma TableStep(crc: Word, b: Byte)
    ensures Xor32(Steps(Bits32(), Xor32(crc, b) % 256, 8), crc / 256) == Absorb(Bits32(), crc, b)
  {
    var x := Xor32(crc, b);
    HighPart(crc, b);
    StepsSplit(x);
  }

  lemma HighPart(crc: Word, b: Byte)
    ensures Xor(crc, b) / 256 == crc / 256
  {
    ShrXor(crc, b, 8);
    ShrPlus8(Xor(crc, b), 0);
    ShrPlus8(crc, 0);
    ShrPlus8(b, 0);
    Self(Shr(crc, 8));
  }

  lemma StepsSplit(x: Word)
    ensures Steps(Bits32(), x, 8) == Xor32(Steps(Bits32(), x % 256, 8), x / 256)
  {
    TwoWord();
    LowHigh(x % 256, x / 256, 8);
    StepsOfParts(x % 256, 256 * (x / 256), x / 256, 8);
  }

  lemma StepsOfParts(low: Word, high: Word, top: Word, n: nat)
    requires high == Two(n) * top
    ensures Steps(Bits32(), Xor32(low, high), n) == Xor32(Steps(Bits32(), low, n), top)
  {
    Bits32Laws();
    StepsLinear(Bits32(), low, high, n);
    ShiftOut(high, top, n);
  }

  /** The table-driven loop computes the bitwise register, from any state and for any bytes. */
  method Crc32Continued(state: Word, bytes: Bytes, table: seq<Word>) returns (crc: Word)
    requires IsTable(table, 8)
    ensures crc == Crc32From(state, bytes)
  {
    crc := state;
    for i := 0 to |bytes|
      invariant Run(Bits32(), crc, bytes[i..]) == Crc32From(state, bytes)
    {
      assert bytes[i..][0] == bytes[i] && bytes[i..][1..] == bytes[i + 1..];
      TableStep(crc, bytes[i]);
      crc := Xor32(table[Xor32(crc, bytes[i]) % 256], crc / 256);
    }
  }

  /** Continuing from a state composes over concatenation. */
  lemma Crc32Concat(state: Word, x: Bytes, y: Bytes)
    ensures Crc32From(state, x + y) == Crc32From(Crc32From(state, x), y)
  {
    RunConcat(Bits32(), state, x, y);
  }

  /** Two inputs that differ only inside four consecutive bytes never share a checksum. */
  lemma Crc32DetectsBurst(before: Bytes, x: Bytes, y: Bytes, after: Bytes)
    requires |x| == |y| <= 4 && x != y
    ensures Crc32(before + x + after) != Crc32(before + y + after)
  {
    Bits32Laws();
    BurstDetected(Bits32(), 0xFFFF_FFFF, before, x, y, after);
    Cancels(Crc32From(0xFFFF_FFFF, before + x + after), 0xFFFF_FFFF);
    Cancels(Crc32From(0xFFFF_FFFF, before + y + after), 0xFFFF_FFFF);
  }

  // ---------------------------------------------------------------------------
  // Sealed headers: a body followed by its checksum, low byte first
  // ---------------------------------------------------------------------------

  ghost predicate Sealed(header: Bytes) {
    |header| >= 4 && LeValue(header[|header| - 4..]) == Crc32(header[..|header| - 4])
  }

  lemma {:induction false} PackedLe(n: nat, k: nat)
    requires k <= 4 && n < Pow256(k)
    ensures n < BASE && Packed(Bits32(), Le(n, k)) == n
  {
    PowValues256();
    Pow256Mono(k, 4);
    if k > 0 {
      Pow256Mono(k - 1, 3);
      PackedLe(n / 256, k - 1);
      assert Le(n, k)[1..] == Le(n / 256, k - 1);
      JoinIsSum(n % 256, n / 256);
    }
  }

  /** The register that every sealed header leaves behind. */
  function Residue(bits: nat): Word {
    Steps(Bits32(), 0xFFFF_FFFF, bits)
  }

  lemma SealResidue(body: Bytes, tail: Bytes)
    requires |tail| == 4
    ensures LeValue(tail) == Crc32(body) <==> Crc32From(0xFFFF_FFFF, body + tail) == Residue(8 * |tail|)
  {
    var a, v := Bits32(), LeValue(tail);
    var s := Crc32From(0xFFFF_FFFF, body);
    Bits32Laws();
    LeValueRoundTrip(tail);
    PackedLe(v, 4);
    Crc32Concat(0xFFFF_FFFF, body, tail);
    RunPacked(a, s, tail);
    SealWord(s, v);
    if Steps(a, Xor32(s, v), a.width * |tail|) == Residue(8 * |tail|) {
      StepsInjective(a, Xor32(s, v), 0xFFFF_FFFF, 8 * |tail|);
    }
  }

  lemma SealWord(s: Word, v: Word)
    ensures v == Xor32(s, 0xFFFF_FFFF) <==> Xor32(s, v) == 0xFFFF_FFFF
  {
    Cancels(s, v);
    Cancels(s, 0xFFFF_FFFF);
    Commutes(s, v);
    Commutes(s, 0xFFFF_FFFF);
    Cancels(v, s);
    Cancels(0xFFFF_FFFF, s);
  }

  lemma SealedByResidue(header: Bytes)
    requires |header| >= 4
    ensures Sealed(header) <==> Crc32From(0xFFFF_FFFF, header) == Residue(32)
  {
    var k := |header| - 4;
    SealResidue(header[..k], header[k..]);
    assert header[..k] + header[k..] == header;
  }

  /** No change inside four consecutive bytes turns a sealed header into another sealed header,
      wherever the four bytes lie: in the body, in the checksum, or across both. */
  lemma SealDetectsBurst(before: Bytes, x: Bytes, y: Bytes, after: Bytes)
    requires |x| == |y| <= 4 && x != y && Sealed(before + x + after)
    ensures !Sealed(before + y + after)
  {
    Bits32Laws();
    SealedByResidue(before + x + after);
    SealedByResidue(before + y + after);
    BurstDetected(Bits32(), 0xFFFF_FFFF, before, x, y, after);
  }
}
