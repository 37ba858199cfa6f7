/** Little-endian sequences of 32 bit limbs, as the field and scalar code of src/ed25519.cpp
    stores its numbers, and the two carry loops that code is built from. */
module Words {
  const BASE: nat := 0x1_0000_0000

  /** std::uint32_t */
  type Word = x: int | 0 <= x < 0x1_0000_0000
  /** std::uint64_t: every accumulator is declared with this type, so each assignment to one
      is also a proof that the 64 bit sum did not wrap. */
  type Acc = x: int | 0 <= x < 0x1_0000_0000_0000_0000

  type Limbs8 = s: seq<Word> | |s| == 8 witness [0, 0, 0, 0, 0, 0, 0, 0]

  function Pow32(n: nat): (p: nat)
    ensures p > 0
  {
    if n == 0 then 1 else BASE * Pow32(n - 1)
  }

  /** The number a limb sequence stands for. */
  function Value(s: seq<nat>): nat
  {
    if s == [] then 0 else Value(s[..|s| - 1]) + s[|s| - 1] * Pow32(|s| - 1)
  }

  lemma PrefixStep(s: seq<nat>, i: nat)
    requires i < |s|
    ensures Value(s[..i + 1]) == Value(s[..i]) + s[i] * Pow32(i)
  {
    assert s[..i + 1][..i] == s[..i];
  }

  lemma {:induction false} PowAdd(m: nat, n: nat)
    ensures Pow32(m + n) == Pow32(m) * Pow32(n)
  {
    if m > 0 {
      PowAdd(m - 1, n);
      MulAssoc(BASE, Pow32(m - 1), Pow32(n));
    }
  }

  lemma MulAssoc(x: int, y: int, z: int)
    ensures (x * y) * z == x * (y * z)
  {
  }

  lemma MulMono(x: int, y: int, weight: int)
    requires x <= y && 0 <= weight
    ensures x * weight <= y * weight
  {
  }

  /** Distributes a weight over the terms of one limb step. */
  lemma Weigh(x: int, y: int, z: int, weight: int)
    ensures (x + y + z) * weight == x * weight + y * weight + z * weight
  {
  }

  /** Splitting a sum at the limb boundary loses nothing. */
  lemma Carry(sum: int, weight: int)
    ensures sum * weight == (sum % BASE) * weight + (sum / BASE) * (BASE * weight)
  {
    var lo, hi := sum % BASE, sum / BASE;
    assert sum == lo + hi * BASE;
    assert sum * weight == lo * weight + (hi * BASE) * weight;
    MulAssoc(hi, BASE, weight);
  }

  lemma {:induction false} ValueUpdate(s: seq<nat>, i: nat, v: nat)
    requires i < |s|
    ensures Value(s[i := v]) == Value(s) + (v - s[i]) * Pow32(i)
  {
    var n := |s| - 1;
    if i == n {
      assert s[i := v][..n] == s[..n];
    } else {
      assert s[i := v][..n] == s[..n][i := v];
      ValueUpdate(s[..n], i, v);
    }
  }

  lemma {:induction false} ValueBound(s: seq<Word>)
    ensures Value(s) < Pow32(|s|)
  {
    if s != [] {
      var n := |s| - 1;
      ValueBound(s[..n]);
      MulMono(s[n], BASE - 1, Pow32(n));
    }
  }

  lemma Rearrange(p: int, v: int, x: int, q: int)
    ensures p * (v + x * q) == p * v + x * (p * q)
  {
  }

  lemma {:induction false} ValueAppend(s: seq<nat>, t: seq<nat>)
    ensures Value(s + t) == Value(s) + Pow32(|s|) * Value(t)
  {
    if t == [] {
      assert s + t == s;
    } else {
      var n := |t| - 1;
      ValueAppend(s, t[..n]);
      assert (s + t)[..|s| + n] == s + t[..n];
      PowAdd(|s|, n);
      Rearrange(Pow32(|s|), Value(t[..n]), t[n], Pow32(n));
      assert Value(s + t) == Value((s + t)[..|s| + n]) + t[n] * Pow32(|s| + n);
    }
  }

  lemma ValueSplit(s: seq<nat>, k: nat)
    requires k <= |s|
    ensures Value(s) == Value(s[..k]) + Pow32(k) * Value(s[k..])
  {
    assert s == s[..k] + s[k..];
    ValueAppend(s[..k], s[k..]);
  }

  /** A larger top part outweighs any lower part. */
  lemma {:induction false} TopDecides(a: seq<Word>, b: seq<Word>, k: nat)
    requires k < |a| == |b| && a[k + 1..] == b[k + 1..] && a[k] < b[k]
    ensures Value(a) < Value(b)
  {
    assert Value(a[..k + 1]) < Value(b[..k + 1]) by {
      PrefixStep(a, k);
      PrefixStep(b, k);
      ValueBound(a[..k]);
      MulMono(a[k] + 1, b[k], Pow32(k));
      Weigh(a[k], 1, 0, Pow32(k));
    }
    ValueSplit(a, k + 1);
    ValueSplit(b, k + 1);
  }

  /** Equal numbers have equal limbs: limb equality is equality of values. */
  lemma {:induction false} ValueInjective(a: seq<Word>, b: seq<Word>)
    requires |a| == |b| && Value(a) == Value(b)
    ensures a == b
  {
    if a != [] {
      var n := |a| - 1;
      assert a[n + 1..] == b[n + 1..];
      if a[n] < b[n] {
        TopDecides(a, b, n);
      } else if b[n] < a[n] {
        TopDecides(b, a, n);
      }
      ValueInjective(a[..n], b[..n]);
    }
  }

  method ToArray(a: Limbs8) returns (out: array<Word>)
    ensures fresh(out) && out[..] == a
  {
    out := new Word[8](i requires 0 <= i < 8 => a[i]);
  }

  lemma PowValues()
    ensures Pow32(1) == 0x1_00000000
    ensures Pow32(2) == 0x1_00000000_00000000
    ensures Pow32(3) == 0x1_00000000_00000000_00000000
    ensures Pow32(4) == 0x1_00000000_00000000_00000000_00000000
    ensures Pow32(5) == 0x1_00000000_00000000_00000000_00000000_00000000
    ensures Pow32(6) == 0x1_00000000_00000000_00000000_00000000_00000000_00000000
    ensures Pow32(7) == 0x1_00000000_00000000_00000000_00000000_00000000_00000000_00000000
    ensures Pow32(8) == 0x1_00000000_00000000_00000000_00000000_00000000_00000000_00000000_00000000
  {
    assert Pow32(0) == 1;
    assert Pow32(2) == BASE * Pow32(1);
    assert Pow32(3) == BASE * Pow32(2);
    assert Pow32(4) == BASE * Pow32(3);
    assert Pow32(5) == BASE * Pow32(4);
    assert Pow32(6) == BASE * Pow32(5);
    assert Pow32(7) == BASE * Pow32(6);
  }

  lemma Value8(s: seq<nat>)
    requires |s| == 8
    ensures Value(s) == s[0] + s[1] * Pow32(1) + s[2] * Pow32(2) + s[3] * Pow32(3)
                      + s[4] * Pow32(4) + s[5] * Pow32(5) + s[6] * Pow32(6) + s[7] * Pow32(7)
  {
    assert s[..8] == s && s[..0] == [];
    PrefixStep(s, 0);
    PrefixStep(s, 1);
    PrefixStep(s, 2);
    PrefixStep(s, 3);
    PrefixStep(s, 4);
    PrefixStep(s, 5);
    PrefixStep(s, 6);
    PrefixStep(s, 7);
  }

  /** One limb of an addition, or of a subtraction read as an addition. */
  lemma AddStep(a: seq<Word>, b: seq<Word>, out: seq<Word>, i: nat, carry: nat, next: nat, extra: nat)
    requires i < |a| && i < |b| && i < |out|
    requires Value(out[..i]) + carry * Pow32(i) == Value(a[..i]) + Value(b[..i]) + extra
    requires out[i] + next * BASE == a[i] + b[i] + carry
    ensures Value(out[..i + 1]) + next * Pow32(i + 1) == Value(a[..i + 1]) + Value(b[..i + 1]) + extra
  {
    PrefixStep(a, i);
    PrefixStep(b, i);
    PrefixStep(out, i);
    Weigh(a[i], b[i], carry, Pow32(i));
    Weigh(out[i], next * BASE, 0, Pow32(i));
    MulAssoc(next, BASE, Pow32(i));
  }

  /** The carry loop of fe_add and scalar_add. */
  method AddLimbs(a: Limbs8, b: Limbs8) returns (out: Limbs8, carry: Acc)
    ensures Value(out) + carry * Pow32(8) == Value(a) + Value(b)
    ensures carry <= 1
  {
    var buffer := new Word[8](_ => 0);
    carry := 0;
    for i := 0 to 8
      invariant carry <= 1
      invariant Value(buffer[..i]) + carry * Pow32(i) == Value(a[..i]) + Value(b[..i])
    {
      ghost var done := buffer[..i];
      var sum: Acc := a[i] + b[i] + carry;
      buffer[i] := sum % BASE;
      assert buffer[..][..i] == done && buffer[..][..i + 1] == buffer[..i + 1];
      AddStep(a, b, buffer[..], i, carry, sum / BASE, 0);
      carry := sum / BASE;
    }
    assert a[..8] == a && b[..8] == b && buffer[..8] == buffer[..];
    out := buffer[..];
  }

  /** A negative difference wraps to all ones above bit 31, so bit 32 is the borrow. */
  lemma BorrowBit(x: Word, y: Word, borrow: nat, difference: Acc)
    requires borrow <= 1
    requires difference == (x - y - borrow) % 0x1_0000_0000_0000_0000
    ensures x + ((difference / BASE) % 2) * BASE == difference % BASE + y + borrow
  {
  }

  lemma BorrowDecides(a: Limbs8, b: Limbs8, out: Limbs8, borrow: nat)
    requires borrow <= 1 && Value(a) + borrow * Pow32(8) == Value(out) + Value(b)
    ensures borrow == if Value(a) < Value(b) then 1 else 0
  {
    ValueBound(out);
    ValueBound(a);
  }

  /** The borrow loop of scalar_sub, fe_sub, fe_below_p and fe_conditional_subtract_p: the
      difference wraps in 64 bits and bit 32 of it is the borrow. */
  method SubtractLimbs(a: Limbs8, b: Limbs8) returns (out: Limbs8, borrow: Acc)
    ensures Value(out) == Value(a) - Value(b) + borrow * Pow32(8)
    ensures borrow == if Value(a) < Value(b) then 1 else 0
  {
    var buffer := new Word[8](_ => 0);
    borrow := 0;
    for i := 0 to 8
      invariant borrow <= 1
      invariant Value(a[..i]) + borrow * Pow32(i) == Value(buffer[..i]) + Value(b[..i])
    {
      ghost var done := buffer[..i];
      var difference: Acc := (a[i] - b[i] - borrow) % 0x1_0000_0000_0000_0000;
      var next: Acc := (difference / BASE) % 2;
      BorrowBit(a[i], b[i], borrow, difference);
      buffer[i] := difference % BASE;
      assert buffer[..][..i] == done && buffer[..][..i + 1] == buffer[..i + 1];
      AddStep(buffer[..], b, a, i, borrow, next, 0);
      borrow := next;
    }
    assert a[..8] == a && b[..8] == b && buffer[..8] == buffer[..];
    out := buffer[..];
    BorrowDecides(a, b, out, borrow);
  }

  lemma ProductFits(x: Word, y: Word, z: Word, c: Word)
    ensures 0 <= z + x * y + c < 0x1_0000_0000_0000_0000
  {
    MulMono(x, BASE - 1, y);
    MulMono(0, x, y);
  }

  lemma ProductStep(before: nat, start: nat, x: Word, bs: seq<Word>, j: nat, weight: nat,
                    place: nat, carry: nat)
    requires j < |bs|
    requires before + carry * place == start + x * Value(bs[..j]) * weight
    requires place == weight * Pow32(j)
    ensures before + (x * bs[j] + carry) * place == start + x * Value(bs[..j + 1]) * weight
  {
    var v, p, y := Value(bs[..j]), Pow32(j), bs[j];
    PrefixStep(bs, j);
    calc {
      x * (v + y * p) * weight;
      (x * v + x * (y * p)) * weight;
      { Weigh(x * v, x * (y * p), 0, weight); }
      x * v * weight + x * (y * p) * weight;
      { Regroup(x, y, p, weight); }
      x * v * weight + (x * y) * (weight * p);
    }
    Weigh(x * y, carry, 0, place);
  }

  lemma Regroup(x: int, y: int, p: int, weight: int)
    ensures x * (y * p) * weight == (x * y) * (weight * p)
  {
    MulAssoc(x, y, p);
    MulAssoc(x * y, p, weight);
  }

  /** The first i rows of the product are in the buffer. */
  ghost predicate Rows(t: seq<Word>, a: Limbs8, b: Limbs8, i: nat)
    requires i <= 8
  {
    Value(t) == Value(a[..i]) * Value(b)
  }

  /** And so are the first j limbs of the next row, but for the carry. */
  ghost predicate InRow(t: seq<Word>, a: Limbs8, b: Limbs8, i: nat, j: nat, carry: Word)
    requires i < 8 && j <= 8
  {
    Value(t) + carry * Pow32(i + j) == Value(a[..i]) * Value(b) + a[i] * Value(b[..j]) * Pow32(i)
  }

  lemma NoRows(t: seq<Word>, a: Limbs8, b: Limbs8)
    requires Value(t) == 0
    ensures Rows(t, a, b, 0)
  {
  }

  lemma RowStarts(t: seq<Word>, a: Limbs8, b: Limbs8, i: nat)
    requires i < 8 && Rows(t, a, b, i)
    ensures InRow(t, a, b, i, 0, 0)
  {
    assert Value(b[..0]) == 0;
  }

  lemma AllRows(t: seq<Word>, a: Limbs8, b: Limbs8)
    requires Rows(t, a, b, 8)
    ensures Value(t) == Value(a) * Value(b)
  {
    assert a[..8] == a;
  }

  /** The schoolbook product of fe_mul and scalar_mul. */
  method MultiplyLimbs(a: Limbs8, b: Limbs8) returns (product: seq<Word>)
    ensures |product| == 16 && Value(product) == Value(a) * Value(b)
  {
    var t := new Word[16](_ => 0);
    ValueOfZeros(t[..]);
    NoRows(t[..], a, b);
    hide Value, Pow32, Rows, InRow;
    for i := 0 to 8
      invariant Rows(t[..], a, b, i)
      invariant forall k :: i + 8 <= k < 16 ==> t[k] == 0
    {
      var carry: Word := 0;
      RowStarts(t[..], a, b, i);
      for j := 0 to 8
        invariant InRow(t[..], a, b, i, j, carry)
        invariant forall k :: i + 8 <= k < 16 ==> t[k] == 0
      {
        ProductFits(a[i], b[j], t[i + j], carry);
        var current: Acc := t[i + j] + a[i] * b[j] + carry;
        ghost var was := t[..];
        var low: Word := current % BASE;
        t[i + j] := low;
        assert t[..] == was[i + j := low];
        ProductLimb(was, t[..], a, b, i, j, carry, current);
        carry := current / BASE;
      }
      ghost var was := t[..];
      t[i + 8] := carry;
      assert t[..] == was[i + 8 := carry];
      ProductRow(was, a, b, i, carry);
    }
    product := t[..];
    AllRows(product, a, b);
  }

  lemma ProductLimb(was: seq<Word>, now: seq<Word>, a: Limbs8, b: Limbs8, i: nat, j: nat, carry: Word, current: Acc)
    requires i < 8 && j < 8 && |was| == 16
    requires current == was[i + j] + a[i] * b[j] + carry
    requires |now| == 16 && now[i + j] == current % BASE && now == was[i + j := now[i + j]]
    requires InRow(was, a, b, i, j, carry)
    ensures InRow(now, a, b, i, j + 1, current / BASE)
  {
    hide Value, Pow32;
    OneLimb(was, now, Value(a[..i]) * Value(b), a[i], b, i, j, carry, current);
  }

  lemma OneLimb(was: seq<Word>, now: seq<Word>, start: nat, x: Word, b: Limbs8, i: nat, j: nat,
                carry: Word, current: Acc)
    requires i < 8 && j < 8 && |was| == 16
    requires current == was[i + j] + x * b[j] + carry
    requires |now| == 16 && now[i + j] == current % BASE && now == was[i + j := now[i + j]]
    requires Value(was) + carry * Pow32(i + j) == start + x * Value(b[..j]) * Pow32(i)
    ensures Value(now) + (current / BASE) * Pow32(i + j + 1) == start + x * Value(b[..j + 1]) * Pow32(i)
  {
    var p := Pow32(i + j);
    PowAdd(i, j);
    ProductStep(Value(was), start, x, b, j, Pow32(i), p, carry);
    ValueUpdate(was, i + j, now[i + j]);
    LimbArithmetic(Value(now), Value(was), was[i + j], current, x * b[j] + carry, p,
                   start + x * Value(b[..j + 1]) * Pow32(i));
  }

  lemma LimbArithmetic(now: int, was: int, old0: int, current: int, added: int, p: int, rhs: int)
    requires now == was + (current % BASE - old0) * p
    requires current == old0 + added
    requires was + added * p == rhs
    ensures now + (current / BASE) * (BASE * p) == rhs
  {
    var lo: int := current % BASE;
    Carry(current, p);
    Weigh(lo, -old0, 0, p);
    Weigh(added, old0, 0, p);
  }

  lemma ProductRow(was: seq<Word>, a: Limbs8, b: Limbs8, i: nat, carry: Word)
    requires i < 8 && |was| == 16 && was[i + 8] == 0
    requires InRow(was, a, b, i, 8, carry)
    ensures Rows(was[i + 8 := carry], a, b, i + 1)
  {
    assert b[..8] == b;
    ValueUpdate(was, i + 8, carry);
    PrefixStep(a, i);
    var x, v, p := a[i], Value(b), Pow32(i);
    Weigh(Value(a[..i]), x * p, 0, v);
    assert x * v * p == x * p * v by { MulAssoc(x, v, p); MulAssoc(x, p, v); }
  }

  lemma {:induction false} ValueOfZeros(s: seq<nat>)
    requires forall k :: 0 <= k < |s| ==> s[k] == 0
    ensures Value(s) == 0
  {
    if s != [] {
      ValueOfZeros(s[..|s| - 1]);
    }
  }

  function Two(n: nat): (p: nat)
    ensures p >= 1
  {
    if n == 0 then 1 else 2 * Two(n - 1)
  }

  lemma {:induction false} TwoAdd(m: nat, n: nat)
    ensures Two(m + n) == Two(m) * Two(n)
  {
    if m > 0 {
      TwoAdd(m - 1, n);
      MulAssoc(2, Two(m - 1), Two(n));
    }
  }

  lemma {:induction false} TwoLimbs(k: nat)
    ensures Two(32 * k) == Pow32(k)
  {
    if k > 0 {
      TwoLimbs(k - 1);
      TwoAdd(32, 32 * (k - 1));
      assert Two(8) == 256;
      TwoAdd(8, 8);
      TwoAdd(16, 16);
    }
  }

  /** x >> r */
  function Shr(x: nat, r: nat): nat
  {
    if r == 0 then x else Shr(x, r - 1) / 2
  }

  lemma ShrPlus4(x: nat, r: nat)
    ensures Shr(x, r + 4) == Shr(x, r) / 16
  {
    var y := Shr(x, r);
    assert Shr(x, r + 1) == y / 2;
    assert Shr(x, r + 2) == y / 4;
    assert Shr(x, r + 3) == y / 8;
  }

  lemma ShrPlus8(x: nat, r: nat)
    ensures Shr(x, r + 8) == Shr(x, r) / 0x100
  {
    var y := Shr(x, r);
    assert Shr(x, r + 1) == y / 2;
    assert Shr(x, r + 2) == y / 4;
    assert Shr(x, r + 3) == y / 8;
    assert Shr(x, r + 4) == y / 16;
    assert Shr(x, r + 5) == y / 32;
    assert Shr(x, r + 6) == y / 64;
    assert Shr(x, r + 7) == y / 128;
  }
}
