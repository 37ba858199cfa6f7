/** Arithmetic modulo p = 2^255 - 19 on eight 32 bit limbs: the fe_ functions of src/ed25519.cpp. */
module Field {
  import opened Words
  import opened Congruence

  const P: nat := 0x7FFFFFFF_FFFFFFFF_FFFFFFFF_FFFFFFFF_FFFFFFFF_FFFFFFFF_FFFFFFFF_FFFFFFED

  /** 2^256, the weight of the carry out of limb 7. */
  const RADIX: nat := 2 * P + 38

  const kP: Limbs8 := [0xFFFFFFED, 0xFFFFFFFF, 0xFFFFFFFF, 0xFFFFFFFF,
                       0xFFFFFFFF, 0xFFFFFFFF, 0xFFFFFFFF, 0x7FFFFFFF]

  /** A field element: limbs holding the canonical representative. */
  ghost predicate Canonical(a: Limbs8)
  {
    Value(a) < P
  }

  lemma PrimeLimbs()
    ensures Value(kP) == P && Pow32(8) == RADIX
  {
    Value8(kP);
    PowValues();
  }

  method ConditionalSubtractP(a: array<Word>)
    requires a.Length == 8
    modifies a
    ensures Value(a[..]) == if Value(old(a[..])) >= P then Value(old(a[..])) - P else Value(old(a[..]))
  {
    PrimeLimbs();
    var reduced, borrow := SubtractLimbs(a[..], kP);
    ghost var was := a[..];
    ghost var chosen := if borrow == 0 then reduced else was;
    // The source selects each limb with a mask instead of a branch; the value is the same.
    for i := 0 to 8
      invariant a[..i] == chosen[..i] && a[i..] == was[i..]
    {
      a[i] := if borrow == 0 then reduced[i] else a[i];
    }
    assert a[..] == a[..8] == chosen[..8] == chosen;
  }

  /** Equality of canonical elements is equality of limbs. */
  lemma CanonicalUnique(a: Limbs8, b: Limbs8)
    requires Canonical(a) && Canonical(b) && Cong(Value(a), Value(b), P)
    ensures a == b
  {
    CongReduced(Value(a), Value(b), P);
    ModUnique(Value(b), 0, Value(b), P);
    ValueInjective(a, b);
  }

  method BelowP(a: Limbs8) returns (below: bool)
    ensures below <==> Canonical(a)
  {
    PrimeLimbs();
    var _, borrow := SubtractLimbs(a, kP);
    below := borrow != 0;
  }

  method Add(a: Limbs8, b: Limbs8) returns (out: Limbs8)
    requires Canonical(a) && Canonical(b)
    ensures Value(out) == (Value(a) + Value(b)) % P
  {
    PrimeLimbs();
    var sum, carry := AddLimbs(a, b);
    assert carry == 0;
    var buffer := ToArray(sum);
    ConditionalSubtractP(buffer);
    out := buffer[..];
    ModUnique(Value(a) + Value(b), if Value(sum) >= P then 1 else 0, Value(out), P);
  }

  method Sub(a: Limbs8, b: Limbs8) returns (out: Limbs8)
    requires Canonical(a) && Canonical(b)
    ensures Value(out) == (Value(a) - Value(b)) % P
  {
    PrimeLimbs();
    var borrow;
    out, borrow := SubtractLimbs(a, b);
    if borrow != 0 {
      ghost var wrapped := out;
      var carry;
      out, carry := AddLimbs(out, kP);
      ValueBound(out);
      assert carry == 1;
    }
    ModUnique(Value(a) - Value(b), if borrow != 0 then -1 else 0, Value(out), P);
  }

  lemma PropagateStep(before: seq<nat>, after: seq<nat>, i: nat, carry: nat, sum: nat)
    requires i < |before| == |after| && sum == before[i] + carry && after[i] == sum % BASE
    requires Value(after[..i]) + carry * Pow32(i) == Value(before[..i])
    ensures Value(after[..i + 1]) + (sum / BASE) * Pow32(i + 1) == Value(before[..i + 1])
  {
    PrefixStep(after, i);
    PrefixStep(before, i);
    Carry(sum, Pow32(i));
    Weigh(before[i], carry, 0, Pow32(i));
  }

  /** The carry loop that fe_mul runs twice. */
  method PropagateCarries(w: array<Acc>) returns (carry: Acc)
    requires w.Length == 8
    requires forall k :: 0 <= k < 8 ==> w[k] < 0x8000_0000_0000_0000
    modifies w
    ensures forall k :: 0 <= k < 8 ==> w[k] < BASE
    ensures Value(w[..]) + carry * Pow32(8) == Value(old(w[..]))
  {
    carry := 0;
    ghost var start := w[..];
    for i := 0 to 8
      invariant carry < BASE
      invariant forall k :: 0 <= k < i ==> w[k] < BASE
      invariant forall k :: i <= k < 8 ==> w[k] == start[k]
      invariant Value(w[..i]) + carry * Pow32(i) == Value(start[..i])
    {
      ghost var done := w[..i];
      var sum: Acc := w[i] + carry;
      w[i] := sum % BASE;
      assert w[..][..i] == done && w[..][..i + 1] == w[..i + 1];
      PropagateStep(start, w[..], i, carry, sum);
      carry := sum / BASE;
    }
    assert w[..8] == w[..] && start[..8] == start;
  }

  /** Limb i + 8 has weight 2^256 above limb i, and 2^256 = 38 modulo p. */
  function Fold(low: Word, high: Word): (sum: nat)
    ensures sum < 0x80_0000_0000
  {
    var wide: nat := high;
    low + 38 * wide
  }

  lemma {:induction false} FoldValue(low: seq<Word>, high: seq<Word>, w: seq<nat>)
    requires |low| == |high| == |w|
    requires forall k :: 0 <= k < |w| ==> w[k] == Fold(low[k], high[k])
    ensures Value(w) == Value(low) + 38 * Value(high)
  {
    if w != [] {
      var n := |w| - 1;
      FoldValue(low[..n], high[..n], w[..n]);
      var wide: nat := high[n];
      Weigh(low[n], 38 * wide, 0, Pow32(n));
      MulAssoc(38, wide, Pow32(n));
    }
  }

  lemma AddToLowLimb(w: seq<nat>, x: nat)
    requires |w| == 8
    ensures Value(w[0 := w[0] + x]) == Value(w) + x
  {
    ValueUpdate(w, 0, w[0] + x);
  }

  lemma LowLimb(w: seq<nat>)
    requires |w| == 8
    ensures w[0] <= Value(w)
  {
    ValueSplit(w, 1);
    PrefixStep(w, 0);
  }

  lemma WordBound(w: seq<nat>)
    requires |w| == 8 && forall k :: 0 <= k < 8 ==> w[k] < BASE
    ensures Value(w) < Pow32(8)
  {
    var words: seq<Word> := w;
    ValueBound(words);
  }

  /** A folded carry adds 38 and takes 2^256 away: 2p less for each unit. */
  lemma FoldArithmetic(before: nat, low: nat, carry: nat)
    requires before == low + carry * RADIX && low < RADIX
    ensures low + 38 * carry == before - carry * (2 * P)
    ensures before < 39 * RADIX ==> carry <= 38
    ensures before < RADIX + 1482 ==> carry <= 1
  {
    if carry >= 39 {
      MulMono(39, carry, RADIX);
    } else if carry >= 2 {
      MulMono(2, carry, RADIX);
    }
    assert carry * RADIX == carry * (2 * P) + 38 * carry by {
      Weigh(2 * P, 38, 0, carry);
    }
  }

  /** One round of fe_mul: propagate, then fold the carry out of bit 256 back in at limb 0.
      Every unit of that carry removes 2p. */
  method FoldRound(w: array<Acc>) returns (carry: Acc)
    requires w.Length == 8 && Value(w[..]) < 39 * RADIX
    requires forall k :: 0 <= k < 8 ==> w[k] < 0x8000_0000_0000_0000
    modifies w
    ensures Value(w[..]) == Value(old(w[..])) - carry * (2 * P)
    ensures carry <= 38 && (Value(old(w[..])) < RADIX + 1482 ==> carry <= 1)
    ensures Value(w[..]) < RADIX + 38 * carry
    ensures forall k :: 1 <= k < 8 ==> w[k] < BASE
    ensures w[0] < BASE + 38 * carry && w[0] <= Value(w[..])
  {
    PrimeLimbs();
    ghost var start := Value(w[..]);
    carry := PropagateCarries(w);
    ghost var was := w[..];
    WordBound(was);
    FoldArithmetic(start, Value(was), carry);
    w[0] := w[0] + 38 * carry;
    AddToLowLimb(was, 38 * carry);
    assert w[..] == was[0 := was[0] + 38 * carry];
    LowLimb(w[..]);
  }

  lemma FoldWide(high: nat)
    ensures RADIX * high == high * (2 * P) + 38 * high
  {
    Weigh(2 * P, 38, 0, high);
  }

  lemma WideFold(t: seq<Word>, w: seq<nat>)
    requires |t| == 16 && |w| == 8
    requires forall k :: 0 <= k < 8 ==> w[k] == Fold(t[k], t[k + 8])
    ensures Value(w) == Value(t) - Value(t[8..]) * (2 * P) && Value(w) < 39 * RADIX
  {
    PrimeLimbs();
    FoldValue(t[..8], t[8..], w);
    ValueSplit(t, 8);
    FoldWide(Value(t[8..]));
    ValueBound(t[..8]);
    ValueBound(t[8..]);
  }

  /** Folds the sixteen limb product of fe_mul down to a canonical element. The first fold
      carries at most 38, the second at most 1, and two conditional subtractions suffice. */
  method ReduceWide(t: seq<Word>) returns (out: Limbs8)
    requires |t| == 16
    ensures Value(out) == Value(t) % P
  {
    var w := new Acc[8](_ => 0);
    for i := 0 to 8
      invariant forall k :: 0 <= k < i ==> w[k] == Fold(t[k], t[k + 8]) && w[k] < 0x80_0000_0000
    {
      w[i] := Fold(t[i], t[i + 8]);
    }
    WideFold(t, w[..]);
    var first := FoldRound(w);
    var second := FoldRound(w);
    Weigh(Value(t[8..]), first, second, 2 * P);
    out := Finish(w, Value(t), Value(t[8..]) + first + second);
  }

  /** a * b mod p, for any two 256 bit values. */
  method Mul(a: Limbs8, b: Limbs8) returns (out: Limbs8)
    ensures Value(out) == (Value(a) * Value(b)) % P
  {
    var t := MultiplyLimbs(a, b);
    out := ReduceWide(t);
  }

  method Finish(w: array<Acc>, ghost product: nat, ghost folds: nat) returns (out: Limbs8)
    requires w.Length == 8 && forall k :: 0 <= k < 8 ==> w[k] < BASE
    requires Value(w[..]) == product - folds * (2 * P)
    ensures Value(out) == product % P
  {
    var buffer := new Word[8](_ => 0);
    for i := 0 to 8
      invariant forall k :: 0 <= k < i ==> buffer[k] == w[k]
    {
      buffer[i] := w[i] % BASE;
    }
    assert buffer[..] == w[..];
    ghost var folded := Value(buffer[..]);
    ValueBound(buffer[..]);
    PrimeLimbs();
    ConditionalSubtractP(buffer);
    ConditionalSubtractP(buffer);
    out := buffer[..];
    ghost var taken := if folded >= 2 * P then 2 else if folded >= P then 1 else 0;
    Weigh(2 * folds, taken, 0, P);
    MulAssoc(2, folds, P);
    assert folds * (2 * P) == 2 * (folds * P);
    ModUnique(product, 2 * folds + taken, Value(out), P);
  }

  method Neg(a: Limbs8) returns (out: Limbs8)
    requires Canonical(a)
    ensures Value(out) == (0 - Value(a)) % P
  {
    ValueOfZeros(seq(8, _ => 0));
    assert kZero == seq(8, _ => 0);
    out := Sub(kZero, a);
  }

  const kZero: Limbs8 := [0, 0, 0, 0, 0, 0, 0, 0]
  const kOne: Limbs8 := [1, 0, 0, 0, 0, 0, 0, 0]

  // ---------------------------------------------------------------------------
  // Powers
  // ---------------------------------------------------------------------------

  function Power(x: int, n: nat): int {
    if n == 0 then 1 else x * Power(x, n - 1)
  }

  lemma {:induction false} PowerAdd(x: int, m: nat, n: nat)
    ensures Power(x, m + n) == Power(x, m) * Power(x, n)
  {
    if m > 0 {
      PowerAdd(x, m - 1, n);
      MulAssoc(x, Power(x, m - 1), Power(x, n));
    }
  }

  /** a holds the residue of x to the power e. */
  ghost predicate HoldsPower(a: Limbs8, x: int, e: nat) {
    Value(a) == Power(x, e) % P
  }

  lemma PowerProduct(a: Limbs8, b: Limbs8, out: Limbs8, x: int, e: nat, f: nat)
    requires HoldsPower(a, x, e) && HoldsPower(b, x, f)
    requires Value(out) == (Value(a) * Value(b)) % P
    ensures HoldsPower(out, x, e + f)
  {
    var p, q := Power(x, e), Power(x, f);
    CongMod(p, P);
    CongMod(q, P);
    CongMul(Value(a), p, Value(b), q, P);
    CongSameMod(Value(a) * Value(b), p * q, P);
    PowerAdd(x, e, f);
  }

  /** value^(2^count) by repeated squaring. */
  method SquareTimes(value: Limbs8, count: nat, ghost x: int, ghost e: nat, ghost total: nat) returns (out: Limbs8)
    requires HoldsPower(value, x, e) && total == e * Two(count)
    ensures HoldsPower(out, x, total)
  {
    out := value;
    var left: nat := count;
    ghost var exponent: nat := e;
    while left > 0
      invariant HoldsPower(out, x, exponent)
      invariant exponent * Two(left) == total
      invariant left <= count
    {
      var squared := Mul(out, out);
      PowerProduct(out, out, squared, x, exponent, exponent);
      Doubled(exponent, Two(left - 1));
      out, left, exponent := squared, left - 1, exponent + exponent;
    }
  }

  lemma Doubled(e: int, t: int)
    ensures (e + e) * t == e * (2 * t)
  {
  }

  /** a holds the residue of x to the power 2^n - 1. */
  ghost predicate HoldsOnes(a: Limbs8, x: int, n: nat) {
    HoldsPower(a, x, Two(n) - 1)
  }

  lemma ShiftOnes(m: nat, n: nat)
    ensures (Two(m) - 1) * Two(n) == Two(m + n) - Two(n)
    ensures Two(m + n) >= Two(n)
  {
    TwoAdd(m, n);
    Weigh(Two(m), -1, 0, Two(n));
  }

  /** One link of the exponent chain: a^(2^m - 1) and a^(2^n - 1) give a^(2^(m+n) - 1). */
  method JoinChain(high: Limbs8, ghost m: nat, low: Limbs8, n: nat, ghost x: int, ghost total: nat) returns (out: Limbs8)
    requires HoldsOnes(high, x, m) && HoldsOnes(low, x, n) && total == m + n
    ensures HoldsOnes(out, x, total)
  {
    ShiftOnes(m, n);
    var shifted := SquareTimes(high, n, x, Two(m) - 1, Two(m + n) - Two(n));
    out := Mul(shifted, low);
    PowerProduct(shifted, low, out, x, Two(m + n) - Two(n), Two(n) - 1);
  }

  /** a^(2^250 - 1) */
  method Chain250(a: Limbs8, ghost x: int) returns (q250: Limbs8)
    requires HoldsOnes(a, x, 1)
    ensures HoldsOnes(q250, x, 250)
  {
    var q2 := JoinChain(a, 1, a, 1, x, 2);
    var q4 := JoinChain(q2, 2, q2, 2, x, 4);
    var q8 := JoinChain(q4, 4, q4, 4, x, 8);
    var q16 := JoinChain(q8, 8, q8, 8, x, 16);
    var q32 := JoinChain(q16, 16, q16, 16, x, 32);
    var q18 := JoinChain(q16, 16, q2, 2, x, 18);
    var q50 := JoinChain(q32, 32, q18, 18, x, 50);
    var q100 := JoinChain(q50, 50, q50, 50, x, 100);
    var q200 := JoinChain(q100, 100, q100, 100, x, 200);
    q250 := JoinChain(q200, 200, q50, 50, x, 250);
  }

  lemma Exponent252()
    ensures (Two(250) - 1) * Two(2) == Two(252) - 4
  {
    ShiftOnes(250, 2);
    assert Two(2) == 4;
  }

  /** a^((p-5)/8) = a^(2^252 - 3). */
  method PowP58(a: Limbs8) returns (out: Limbs8)
    requires Canonical(a)
    ensures HoldsPower(out, Value(a), Two(252) - 3)
  {
    hide Power, Two, Value;
    ghost var x := Value(a);
    HoldsItself(a);
    var q250 := Chain250(a, x);
    Exponent252();
    var shifted := SquareTimes(q250, 2, x, Two(250) - 1, Two(252) - 4);
    out := Mul(shifted, a);
    PowerProduct(shifted, a, out, x, Two(252) - 4, 1);
  }

  lemma HoldsItself(a: Limbs8)
    requires Canonical(a)
    ensures HoldsPower(a, Value(a), 1) && HoldsOnes(a, Value(a), 1)
  {
    assert Power(Value(a), 1) == Value(a) && Two(1) == 2;
    ModUnique(Value(a), 0, Value(a), P);
  }

  lemma ExponentP2()
    ensures (Two(252) - 3) * Two(3) == P - 5
  {
    TwoLimbs(8);
    PrimeLimbs();
    TwoAdd(252, 4);
    assert Two(4) == 16 && Two(3) == 8;
  }

  /** a^(p-2): the exponent (p-5)/8 raised to the eighth power, times a^3. */
  method Invert(a: Limbs8) returns (out: Limbs8)
    requires Canonical(a)
    ensures HoldsPower(out, Value(a), P - 2)
  {
    ghost var x := Value(a);
    var z := PowP58(a);
    ExponentP2();
    var z8 := SquareTimes(z, 3, x, Two(252) - 3, P - 5);
    var a2 := Mul(a, a);
    var a3 := Mul(a2, a);
    out := Mul(z8, a3);
    HoldsItself(a);
    PowerProduct(a, a, a2, x, 1, 1);
    PowerProduct(a2, a, a3, x, 2, 1);
    PowerProduct(z8, a3, out, x, P - 5, 3);
  }

  /** With Fermat's little theorem as a hypothesis the result is the multiplicative inverse. */
  lemma InverseUnderFermat(a: Limbs8, inverse: Limbs8)
    requires HoldsPower(inverse, Value(a), P - 2)
    requires Power(Value(a), P - 1) % P == 1
    ensures (Value(a) * Value(inverse)) % P == 1
  {
    var x, e := Value(a), P - 2;
    CongMod(Power(x, e), P);
    CongRefl(x, P);
    CongMul(x, x, Value(inverse), Power(x, e), P);
    CongSameMod(x * Value(inverse), x * Power(x, e), P);
    assert Power(x, e + 1) == x * Power(x, e);
  }
}
