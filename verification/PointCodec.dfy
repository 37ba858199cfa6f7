/** The compressed form of curve points (section 5.1.3 of RFC 8032): what decoding accepts lies on the curve, and
    encoding it gives back the bytes. */
module PointCodec {
  import opened Options
  import opened Words
  import opened Congruence
  import opened Field
  import opened Bytes
  import opened Curve
  import Scalars

  const ROOT: nat := 0x2B832480_4FC1DF0B_2B4D0099_3DFBD7A7_2F431806_AD2FE478_C4EE1B27_4A0EA0B0

  const kSqrtM1: Limbs8 := [0x4A0EA0B0, 0xC4EE1B27, 0xAD2FE478, 0x2F431806,
                            0x3DFBD7A7, 0x2B4D0099, 0x4FC1DF0B, 0x2B832480]

  /** 2^255: the weight of the sign bit. */
  const SIGN: nat := 0x80000000_00000000_00000000_00000000_00000000_00000000_00000000_00000000

  lemma RootLimbs()
    ensures Value(kSqrtM1) == ROOT < P && Cong(ROOT * ROOT, -1, P)
  {
    Value8(kSqrtM1);
    PowValues();
  }

  lemma OneLimbs()
    ensures Value(kOne) == 1
  {
    Value8(kOne);
  }

  // ---------------------------------------------------------------------------
  // Bytes with a sign bit
  // ---------------------------------------------------------------------------

  function Masked(bytes: Bytes): Bytes
    requires |bytes| == 32
  {
    bytes[31 := bytes[31] % 0x80]
  }

  lemma TopWeight()
    ensures Pow256(31) * 0x80 == SIGN
  {
    Scalars.PowersAgree(7);
    PowValues();
    assert Pow256(29) == 256 * Pow256(28) && Pow256(30) == 256 * Pow256(29) && Pow256(31) == 256 * Pow256(30);
  }

  lemma ByteValue(b: Byte)
    ensures LeValue([b]) == b
  {
    assert [b][1..] == [];
  }

  lemma TopSplit(weight: nat, b: nat)
    ensures weight * b == weight * (b % 0x80) + (weight * 0x80) * (b / 0x80)
  {
    var low, high := b % 0x80, b / 0x80;
    assert b == low + 0x80 * high;
  }

  /** The number of thirty-two bytes is the number without the top bit, plus the top bit. */
  lemma SignSplit(bytes: Bytes)
    requires |bytes| == 32
    ensures LeValue(bytes) == LeValue(Masked(bytes)) + SIGN * (bytes[31] / 0x80)
  {
    hide LeValue, Pow256;
    var low := bytes[..31];
    assert bytes == low + [bytes[31]] && Masked(bytes) == low + [bytes[31] % 0x80];
    Scalars.LeAppend(low, [bytes[31]]);
    Scalars.LeAppend(low, [bytes[31] % 0x80]);
    ByteValue(bytes[31]);
    ByteValue(bytes[31] % 0x80);
    TopSplit(Pow256(31), bytes[31]);
    TopWeight();
  }

  // ---------------------------------------------------------------------------
  // Decoding
  // ---------------------------------------------------------------------------

  /** Multiplying a root of -u by the root of -1 gives a root of u. */
  lemma OtherRoot(v: int, x: int, u: int)
    requires Cong(v * (x * x), -u, P)
    ensures Cong(v * ((x * ROOT) * (x * ROOT)), u, P)
  {
    RootLimbs();
    CongMul(v * (x * x), -u, ROOT * ROOT, -1, P);
    Regrouped(v, x, ROOT);
  }

  lemma Regrouped(v: int, x: int, r: int)
    ensures (v * (x * x)) * (r * r) == v * ((x * r) * (x * r))
  {
    Fourfold(x, r);
    MulAssoc(v, x * x, r * r);
  }

  lemma Fourfold(x: int, r: int)
    ensures (x * x) * (r * r) == (x * r) * (x * r)
  {
  }

  /** v x^2 = u with u = y^2 - 1 and v = d y^2 + 1 is the curve equation for the affine point (x, y). */
  lemma AffineOnCurve(x: int, y: int, t: int)
    requires Cong((D * (y * y) + 1) * (x * x), y * y - 1, P) && Cong(t, x * y, P)
    ensures Coords(x, y, 1, t).OnCurve()
  {
    CongMul(t, x * y, t, x * y, P);
    CongRefl(D, P);
    CongMul(D, D, t * t, (x * y) * (x * y), P);
    Expanded(x, y, D);
    var k := CongElim((D * (y * y) + 1) * (x * x), y * y - 1, P);
    CongIntro(y * y - x * x, 1 * 1 + D * ((x * y) * (x * y)), -k, P);
    CongSym(D * (t * t), D * ((x * y) * (x * y)), P);
    CongRefl(1, P);
    CongAdd(1, 1, D * ((x * y) * (x * y)), D * (t * t), P);
    CongTrans(y * y - x * x, 1 + D * ((x * y) * (x * y)), 1 + D * (t * t), P);
    CongSym(t, x * y, P);
  }

  lemma Expanded(x: int, y: int, d: int)
    ensures (d * (y * y) + 1) * (x * x) == d * ((x * y) * (x * y)) + x * x
  {
    Fourfold(x, y);
    MulAssoc(d, y * y, x * x);
  }

  /** The candidate root of u / v, corrected by the root of -1 where that is needed. */
  method SquareRoot(u: Limbs8, v: Limbs8, ghost u': int, ghost v': int) returns (root: Option<Limbs8>)
    requires Holds(u, u') && Holds(v, v')
    ensures root.Some? ==> Canonical(root.value) && Cong(v' * (Value(root.value) * Value(root.value)), u', P)
  {
    hide Cong, Power;
    var v2 := Mul(v, v);
    var v3 := Mul(v2, v);
    var v6 := Mul(v3, v3);
    var v7 := Mul(v6, v);
    var uv7 := Mul(u, v7);
    var power := PowP58(uv7);
    var uv3 := Mul(u, v3);
    var x := Mul(power, uv3);
    var square := SquareOf(x);
    var vx2 := HeldProduct(v, square, v', Value(x) * Value(x), v' * (Value(x) * Value(x)));
    if vx2 == u {
      SameResidue(vx2, v' * (Value(x) * Value(x)), u');
      return Some(x);
    }
    var minus := NegationOf(u, u');
    if vx2 != minus {
      return None;
    }
    SameResidue(vx2, v' * (Value(x) * Value(x)), -u');
    OtherRoot(v', Value(x), u');
    RootLimbs();
    var y := Mul(x, kSqrtM1);
    SquareOfReduced(Value(y), Value(x) * ROOT, v', u');
    root := Some(y);
  }

  method SquareOf(x: Limbs8) returns (out: Limbs8)
    requires Canonical(x)
    ensures Holds(out, Value(x) * Value(x))
  {
    CongRefl(Value(x), P);
    out := HeldProduct(x, x, Value(x), Value(x), Value(x) * Value(x));
  }

  method NegationOf(a: Limbs8, ghost a': int) returns (out: Limbs8)
    requires Holds(a, a')
    ensures Holds(out, -a')
  {
    out := Neg(a);
    CongMod(0 - Value(a), P);
    CongRefl(0, P);
    CongSub(0, 0, Value(a), a', P);
    CongTrans(Value(out), 0 - Value(a), -a', P);
  }

  lemma SameResidue(a: Limbs8, x: int, y: int)
    requires Holds(a, x) && Holds(a, y)
    ensures Cong(x, y, P)
  {
    CongSym(Value(a), x, P);
    CongTrans(x, Value(a), y, P);
  }

  lemma SquareOfReduced(y: int, x: int, v: int, u: int)
    requires y == x % P && Cong(v * (x * x), u, P)
    ensures Cong(v * (y * y), u, P)
  {
    hide Cong;
    CongMod(x, P);
    CongMul(y, x, y, x, P);
    CongRefl(v, P);
    CongMul(v, v, y * y, x * x, P);
    CongTrans(v * (y * y), v * (x * x), u, P);
  }

  /** x or -x, whichever has the wanted parity. */
  method WithParity(x: Limbs8, sign: nat) returns (out: Limbs8)
    requires Canonical(x) && sign < 2 && (Value(x) == 0 ==> sign == 0)
    ensures Canonical(out) && Value(out) % 2 == sign && (Value(out) == 0 <==> Value(x) == 0)
    ensures Value(out) == Value(x) || Value(out) == P - Value(x)
  {
    hide Value;
    LowLimbParity(x);
    out := x;
    if x[0] % 2 != sign {
      out := Neg(x);
      Negated(Value(x));
    }
  }

  /** p is odd, so -x has the other parity. */
  lemma Negated(x: nat)
    requires 0 < x < P
    ensures (0 - x) % P == P - x && (P - x) % 2 == 1 - x % 2
  {
    ModUnique(0 - x, -1, P - x, P);
  }

  lemma LowLimbParity(x: Limbs8)
    ensures Value(x) % 2 == x[0] % 2
  {
    Value8(x);
    PowValues();
  }

  lemma SquareOfNegation(x: int)
    ensures Cong((P - x) * (P - x), x * x, P)
  {
    NegationExpanded(x, P);
    CongIntro((P - x) * (P - x), x * x, P - 2 * x, P);
  }

  lemma NegationExpanded(x: int, p: int)
    ensures (p - x) * (p - x) == x * x + (p - 2 * x) * p
  {
  }

  lemma EitherSquare(out: int, x: int, v: int, u: int)
    requires (out == x || out == P - x) && Cong(v * (x * x), u, P)
    ensures Cong(v * (out * out), u, P)
  {
    hide Cong;
    if out != x {
      SquareOfNegation(x);
      CongRefl(v, P);
      CongMul(v, v, out * out, x * x, P);
      CongTrans(v * (out * out), v * (x * x), u, P);
    }
  }

  /** What the bytes of a decoded point say: y below p, and the parity of x, which is not zero when that is odd. */
  ghost predicate Spells(bytes: Bytes, p: Point) {
    && LeValue(bytes) == Value(p.y) + SIGN * (Value(p.x) % 2)
    && Canonical(p.x) && Canonical(p.y)
  }

  lemma CurveTerms(y: Limbs8)
    requires Canonical(y)
    ensures Holds(y, Value(y)) && Holds(kOne, 1) && Holds(kD, D)
  {
    OneLimbs();
    CurveConstants();
    CongRefl(Value(y), P);
    CongRefl(1, P);
    CongRefl(D, P);
  }

  /** point_from_bytes: whatever is accepted is a canonical point on the curve that the bytes spell. */
  method PointFromBytes(bytes: Bytes) returns (r: Option<Point>)
    requires |bytes| == 32
    ensures r.Some? ==> r.value.Reduced() && r.value.Values().OnCurve() && r.value.z == kOne && Spells(bytes, r.value)
    ensures LeValue(Masked(bytes)) >= P ==> r.None?
  {
    hide Cong, LeValue;
    var sign := bytes[31] / 0x80;
    var y := Scalars.FromBytes(Masked(bytes));
    var below := BelowP(y);
    if !below {
      return None;
    }
    ghost var n: int := Value(y);
    CurveTerms(y);
    var y2 := HeldProduct(y, y, n, n, n * n);
    var u := HeldDifference(y2, kOne, n * n, 1);
    var dy2 := HeldProduct(kD, y2, D, n * n, D * (n * n));
    var v := HeldSum(dy2, kOne, D * (n * n), 1);
    var root := SquareRoot(u, v, n * n - 1, D * (n * n) + 1);
    if root.None? {
      return None;
    }
    var zero := root.value == kZero;
    ZeroIsZero(root.value);
    if zero && sign != 0 {
      return None;
    }
    var x := WithParity(root.value, sign);
    EitherSquare(Value(x), Value(root.value), D * (n * n) + 1, n * n - 1);
    CongRefl(Value(x), P);
    var t := HeldProduct(x, y, Value(x), n, Value(x) * n);
    OneLimbs();
    AffineOnCurve(Value(x), n, Value(t));
    SignSplit(bytes);
    r := Some(Point(x, y, kOne, t));
  }

  lemma ZeroIsZero(a: Limbs8)
    ensures Canonical(a) ==> (a == kZero <==> Value(a) == 0)
  {
    ValueOfZeros(kZero);
    if Canonical(a) && Value(a) == 0 {
      CongRefl(0, P);
      CanonicalUniqueZero(a);
    }
  }

  // ---------------------------------------------------------------------------
  // Encoding
  // ---------------------------------------------------------------------------

  lemma {:induction false} PowerOfOne(n: nat)
    ensures Power(1, n) == 1
  {
    if n > 0 {
      PowerOfOne(n - 1);
    }
  }

  /** The affine coordinates, by the inverse of Z; with Z = 1 they are the coordinates themselves. */
  method Affine(p: Point) returns (x: Limbs8, y: Limbs8)
    requires p.Reduced()
    ensures Canonical(x) && Canonical(y)
    ensures p.z == kOne ==> Value(x) == Value(p.x) && Value(y) == Value(p.y)
  {
    hide Power, Cong;
    var inverse := Invert(p.z);
    x := Mul(p.x, inverse);
    y := Mul(p.y, inverse);
    if p.z == kOne {
      OneLimbs();
      PowerOfOne(P - 2);
      ModUnique(1, 0, 1, P);
      ModUnique(Value(p.x), 0, Value(p.x), P);
      ModUnique(Value(p.y), 0, Value(p.y), P);
    }
  }

  /** point_to_bytes; on a point with Z = 1 the bytes are its y with the parity of its x on top. */
  method PointToBytes(p: Point) returns (bytes: Bytes)
    requires p.Reduced()
    ensures |bytes| == 32 && (p.z == kOne ==> Spells(bytes, p))
  {
    hide LeValue, Value;
    var x, y := Affine(p);
    bytes := Scalars.ToBytes(y);
    TopBitClear(bytes, Value(y));
    LowLimbParity(x);
    ghost var plain := bytes;
    bytes := bytes[31 := bytes[31] + 0x80 * (x[0] % 2)];
    assert Masked(bytes) == plain;
    SignAdded(bytes, Value(y), x[0] % 2);
  }

  lemma TopBitClear(bytes: Bytes, n: nat)
    requires |bytes| == 32 && LeValue(bytes) == n < P
    ensures bytes[31] < 0x80
  {
    hide LeValue;
    SignSplit(bytes);
  }

  lemma SignAdded(bytes: Bytes, n: nat, bit: nat)
    requires |bytes| == 32 && bit < 2 && bytes[31] / 0x80 == bit && LeValue(Masked(bytes)) == n
    ensures LeValue(bytes) == n + SIGN * bit
  {
    hide LeValue;
    SignSplit(bytes);
  }

  /** Bytes that spell one point are one sequence. */
  lemma SpelledOnce(a: Bytes, b: Bytes, p: Point)
    requires |a| == |b| == 32 && Spells(a, p) && Spells(b, p)
    ensures a == b
  {
    hide LeValue;
    LeValueRoundTrip(a);
    LeValueRoundTrip(b);
  }

  /** Accepted bytes are the encoding of the point they decode to, so no point has two accepted encodings. */
  method EncodeDecoded(bytes: Bytes) returns (p: Option<Point>, again: Bytes)
    requires |bytes| == 32
    ensures p.Some? ==> again == bytes && p.value.Values().OnCurve()
  {
    hide Spells;
    p := PointFromBytes(bytes);
    again := bytes;
    if p.Some? {
      again := PointToBytes(p.value);
      SpelledOnce(again, bytes, p.value);
    }
  }
}
