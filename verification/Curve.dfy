/** The extended twisted Edwards formulas of src/ed25519.cpp: -x^2 + y^2 = 1 + d x^2 y^2
    over the integers modulo p (section 5.1.4 of RFC 8032). */
module Curve {
  import opened Words
  import opened Congruence
  import opened Field

  const D: nat := 0x52036CEE_2B6FFE73_8CC74079_7779E898_00700A4D_4141D8AB_75EB4DCA_135978A3

  const kD: Limbs8 := [0x135978A3, 0x75EB4DCA, 0x4141D8AB, 0x00700A4D,
                       0x7779E898, 0x8CC74079, 0x2B6FFE73, 0x52036CEE]
  const kD2: Limbs8 := [0x26B2F159, 0xEBD69B94, 0x8283B156, 0x00E0149A,
                        0xEEF3D130, 0x198E80F2, 0x56DFFCE7, 0x2406D9DC]

  /** The limb constants are d and 2d, and d is -121665/121666. */
  lemma CurveConstants()
    ensures Value(kD) == D && Value(kD2) == (2 * D) % P
    ensures Cong(121666 * D, -121665, P)
  {
    Value8(kD);
    Value8(kD2);
    PowValues();
  }

  datatype Point = Point(x: Limbs8, y: Limbs8, z: Limbs8, t: Limbs8) {
    ghost predicate Reduced() {
      Canonical(x) && Canonical(y) && Canonical(z) && Canonical(t)
    }

    ghost function Values(): Coords {
      Coords(Value(x), Value(y), Value(z), Value(t))
    }
  }

  /** Extended coordinates as integers, read modulo p. */
  datatype Coords = Coords(x: int, y: int, z: int, t: int) {
    /** X Y = Z T and -X^2 + Y^2 = Z^2 + d T^2 */
    ghost predicate OnCurve() {
      && Cong(x * y, z * t, P)
      && Cong(y * y - x * x, z * z + D * (t * t), P)
    }

    ghost predicate CongTo(other: Coords) {
      Cong(x, other.x, P) && Cong(y, other.y, P) && Cong(z, other.z, P) && Cong(t, other.t, P)
    }

    ghost function Scale(k: int): Coords {
      Coords(k * x, k * y, k * z, k * t)
    }
  }

  // ---------------------------------------------------------------------------
  // The addition law over the integers
  // ---------------------------------------------------------------------------

  ghost function SumE(p: Coords, q: Coords): int { p.x * q.y + q.x * p.y }
  ghost function SumH(p: Coords, q: Coords): int { p.y * q.y + p.x * q.x }
  ghost function SumM(p: Coords, q: Coords): int { p.z * q.z }
  ghost function SumN(p: Coords, q: Coords): int { D * (p.t * q.t) }

  /** The unified addition formula without the factors of two. */
  ghost function AddLaw(p: Coords, q: Coords): Coords {
    var e, h := SumE(p, q), SumH(p, q);
    var f, g := SumM(p, q) - SumN(p, q), SumM(p, q) + SumN(p, q);
    Coords(e * f, g * h, f * g, e * h)
  }

  lemma NormDifference(x1: int, y1: int, x2: int, y2: int)
    ensures (y1 * y2 + x1 * x2) * (y1 * y2 + x1 * x2) - (x1 * y2 + x2 * y1) * (x1 * y2 + x2 * y1)
         == (y1 * y1 - x1 * x1) * (y2 * y2 - x2 * x2)
  {
  }

  lemma NormSum(x1: int, y1: int, x2: int, y2: int)
    ensures (y1 * y2 + x1 * x2) * (y1 * y2 + x1 * x2) + (x1 * y2 + x2 * y1) * (x1 * y2 + x2 * y1)
         == (y1 * y1 + x1 * x1) * (y2 * y2 + x2 * x2) + 4 * ((x1 * y1) * (x2 * y2))
  {
  }

  lemma CrossProduct(x1: int, y1: int, x2: int, y2: int)
    ensures (x1 * y2 + x2 * y1) * (y1 * y2 + x1 * x2)
         == (x1 * y1) * (y2 * y2 + x2 * x2) + (x2 * y2) * (y1 * y1 + x1 * x1)
  {
  }

  lemma SquareOfSum(x: int, y: int)
    ensures (y * y + x * x) * (y * y + x * x) == (y * y - x * x) * (y * y - x * x) + 4 * ((x * y) * (x * y))
  {
  }

  lemma Combine(m: int, n: int, hh: int, ee: int)
    ensures ((m + n) * (m + n)) * hh - ee * ((m - n) * (m - n)) == (m * m + n * n) * (hh - ee) + 2 * (m * n) * (hh + ee)
  {
  }

  lemma SquareCross(w1: int, w2: int, s1: int, s2: int)
    ensures (w1 * s2 + w2 * s1) * (w1 * s2 + w2 * s1)
         == (w1 * w1) * (s2 * s2) + (w2 * w2) * (s1 * s1) + 2 * ((w1 * w2) * (s1 * s2))
  {
  }

  /** The identity that remains once both curve equations have been used. */
  lemma Cancel(a1: int, b1: int, a2: int, b2: int)
    ensures (a1 * a2 + b1 * b2) * ((a1 + b1) * (a2 + b2))
         == (a1 * a2 - b1 * b2) * (a1 * a2 - b1 * b2)
          + (a1 * b1) * ((a2 + b2) * (a2 + b2)) + (a2 * b2) * ((a1 + b1) * (a1 + b1))
  {
  }

  /** Both sides of the curve equation of a sum, as functions of what the curve equations of
      the summands rewrite: q = y^2 - x^2 and w = x y. */
  ghost function SumLeft(m: int, n: int, s: int, q1: int, q2: int, w1: int, w2: int): int {
    (m * m + n * n) * (q1 * q2) + 2 * (m * n) * (s + 4 * (w1 * w2))
  }

  ghost function SumRight(m: int, n: int, s: int, q1: int, q2: int, w1: int, w2: int): int {
    (m * m - n * n) * (m * m - n * n)
    + D * ((w1 * w1) * (q2 * q2) + (w2 * w2) * (q1 * q1) + 8 * ((w1 * w2) * (w1 * w2)) + 2 * ((w1 * w2) * s))
  }

  lemma SumSides(p: Coords, q: Coords)
    ensures var out := AddLaw(p, q);
      var s := (p.y * p.y + p.x * p.x) * (q.y * q.y + q.x * q.x);
      var q1, q2, w1, w2 := p.y * p.y - p.x * p.x, q.y * q.y - q.x * q.x, p.x * p.y, q.x * q.y;
      && out.y * out.y - out.x * out.x == SumLeft(SumM(p, q), SumN(p, q), s, q1, q2, w1, w2)
      && out.z * out.z + D * (out.t * out.t) == SumRight(SumM(p, q), SumN(p, q), s, q1, q2, w1, w2)
  {
    var e, h, m, n := SumE(p, q), SumH(p, q), SumM(p, q), SumN(p, q);
    var s1, s2 := p.y * p.y + p.x * p.x, q.y * q.y + q.x * q.x;
    var q1, q2, w1, w2 := p.y * p.y - p.x * p.x, q.y * q.y - q.x * q.x, p.x * p.y, q.x * q.y;
    NormDifference(p.x, p.y, q.x, q.y);
    NormSum(p.x, p.y, q.x, q.y);
    Combine(m, n, h * h, e * e);
    SquareProduct(m + n, h);
    SquareProduct(e, m - n);
    CrossProduct(p.x, p.y, q.x, q.y);
    SquareCross(w1, w2, s1, s2);
    SquareOfSum(p.x, p.y);
    SquareOfSum(q.x, q.y);
    Spread(w1 * w1, q2 * q2, w2 * w2, q1 * q1);
    SquareProduct(w1, w2);
    DifferenceOfSquares(m, n);
  }

  lemma SquareProduct(x: int, y: int)
    ensures (x * y) * (x * y) == (x * x) * (y * y)
  {
  }

  lemma DifferenceOfSquares(m: int, n: int)
    ensures ((m - n) * (m + n)) * ((m - n) * (m + n)) == (m * m - n * n) * (m * m - n * n)
  {
  }

  lemma Spread(ww1: int, qq2: int, ww2: int, qq1: int)
    ensures ww1 * (qq2 + 4 * ww2) + ww2 * (qq1 + 4 * ww1) == ww1 * qq2 + ww2 * qq1 + 8 * (ww1 * ww2)
  {
  }

  /** The two sides agree once q = z^2 + d t^2 and w = z t have been put in. */
  lemma SumSidesAgree(z1: int, t1: int, z2: int, t2: int, s: int)
    ensures var m, n := z1 * z2, D * (t1 * t2);
      var r1, r2, v1, v2 := z1 * z1 + D * (t1 * t1), z2 * z2 + D * (t2 * t2), z1 * t1, z2 * t2;
      SumLeft(m, n, s, r1, r2, v1, v2) == SumRight(m, n, s, r1, r2, v1, v2)
  {
    var m, n := z1 * z2, D * (t1 * t2);
    var a1, b1, a2, b2 := z1 * z1, D * (t1 * t1), z2 * z2, D * (t2 * t2);
    var v := (z1 * t1) * (z2 * t2);
    Cancel(a1, b1, a2, b2);
    assert m * m == a1 * a2;
    assert n * n == b1 * b2;
    assert m * n == D * v;
    assert a1 * b1 == D * ((z1 * t1) * (z1 * t1));
    assert a2 * b2 == D * ((z2 * t2) * (z2 * t2));
    assert 2 * (D * v) * (s + 4 * v) == D * (8 * (v * v) + 2 * (v * s));
  }

  lemma CongSum4(a: int, a': int, b: int, b': int, c: int, c': int, e: int, e': int)
    requires Cong(a, a', P) && Cong(b, b', P) && Cong(c, c', P) && Cong(e, e', P)
    ensures Cong(a + b + c + e, a' + b' + c' + e', P)
  {
    CongAdd(a, a', b, b', P);
    CongAdd(a + b, a' + b', c, c', P);
    CongAdd(a + b + c, a' + b' + c', e, e', P);
  }

  lemma CongTimes(k: int, x: int, y: int)
    requires Cong(x, y, P)
    ensures Cong(k * x, k * y, P)
  {
    CongRefl(k, P);
    CongMul(k, k, x, y, P);
  }

  lemma SumLeftCong(m: int, n: int, s: int, q1: int, q2: int, w1: int, w2: int, r1: int, r2: int, v1: int, v2: int)
    requires Cong(q1, r1, P) && Cong(q2, r2, P) && Cong(w1, v1, P) && Cong(w2, v2, P)
    ensures Cong(SumLeft(m, n, s, q1, q2, w1, w2), SumLeft(m, n, s, r1, r2, v1, v2), P)
  {
    CongMul(q1, r1, q2, r2, P);
    CongMul(w1, v1, w2, v2, P);
    CongTimes(m * m + n * n, q1 * q2, r1 * r2);
    CongTimes(4, w1 * w2, v1 * v2);
    CongRefl(s, P);
    CongAdd(s, s, 4 * (w1 * w2), 4 * (v1 * v2), P);
    CongTimes(2 * (m * n), s + 4 * (w1 * w2), s + 4 * (v1 * v2));
    CongAdd((m * m + n * n) * (q1 * q2), (m * m + n * n) * (r1 * r2),
            2 * (m * n) * (s + 4 * (w1 * w2)), 2 * (m * n) * (s + 4 * (v1 * v2)), P);
  }

  lemma SumRightCong(m: int, n: int, s: int, q1: int, q2: int, w1: int, w2: int, r1: int, r2: int, v1: int, v2: int)
    requires Cong(q1, r1, P) && Cong(q2, r2, P) && Cong(w1, v1, P) && Cong(w2, v2, P)
    ensures Cong(SumRight(m, n, s, q1, q2, w1, w2), SumRight(m, n, s, r1, r2, v1, v2), P)
  {
    CongMul(q1, r1, q1, r1, P);
    CongMul(q2, r2, q2, r2, P);
    CongMul(w1, v1, w1, v1, P);
    CongMul(w2, v2, w2, v2, P);
    CongMul(w1 * w1, v1 * v1, q2 * q2, r2 * r2, P);
    CongMul(w2 * w2, v2 * v2, q1 * q1, r1 * r1, P);
    CongMul(w1, v1, w2, v2, P);
    CongMul(w1 * w2, v1 * v2, w1 * w2, v1 * v2, P);
    CongTimes(8, (w1 * w2) * (w1 * w2), (v1 * v2) * (v1 * v2));
    CongRefl(s, P);
    CongMul(w1 * w2, v1 * v2, s, s, P);
    CongTimes(2, (w1 * w2) * s, (v1 * v2) * s);
    var left := (w1 * w1) * (q2 * q2) + (w2 * w2) * (q1 * q1) + 8 * ((w1 * w2) * (w1 * w2)) + 2 * ((w1 * w2) * s);
    var right := (v1 * v1) * (r2 * r2) + (v2 * v2) * (r1 * r1) + 8 * ((v1 * v2) * (v1 * v2)) + 2 * ((v1 * v2) * s);
    CongSum4((w1 * w1) * (q2 * q2), (v1 * v1) * (r2 * r2), (w2 * w2) * (q1 * q1), (v2 * v2) * (r1 * r1),
             8 * ((w1 * w2) * (w1 * w2)), 8 * ((v1 * v2) * (v1 * v2)), 2 * ((w1 * w2) * s), 2 * ((v1 * v2) * s));
    CongTimes(D, left, right);
    var fixedPart := (m * m - n * n) * (m * m - n * n);
    CongRefl(fixedPart, P);
    CongAdd(fixedPart, fixedPart, D * left, D * right, P);
  }

  /** The sum of two points of the curve is on the curve. */
  lemma AddLawOnCurve(p: Coords, q: Coords)
    requires p.OnCurve() && q.OnCurve()
    ensures AddLaw(p, q).OnCurve()
  {
    var out := AddLaw(p, q);
    var e, h, f, g := SumE(p, q), SumH(p, q), SumM(p, q) - SumN(p, q), SumM(p, q) + SumN(p, q);
    assert (e * f) * (g * h) == (f * g) * (e * h);
    CongRefl(out.x * out.y, P);
    var s := (p.y * p.y + p.x * p.x) * (q.y * q.y + q.x * q.x);
    var q1, q2, w1, w2 := p.y * p.y - p.x * p.x, q.y * q.y - q.x * q.x, p.x * p.y, q.x * q.y;
    var r1, r2, v1, v2 := p.z * p.z + D * (p.t * p.t), q.z * q.z + D * (q.t * q.t), p.z * p.t, q.z * q.t;
    SumSides(p, q);
    SumSidesAgree(p.z, p.t, q.z, q.t, s);
    SumLeftCong(SumM(p, q), SumN(p, q), s, q1, q2, w1, w2, r1, r2, v1, v2);
    SumRightCong(SumM(p, q), SumN(p, q), s, q1, q2, w1, w2, r1, r2, v1, v2);
    var left, middle, right := SumLeft(SumM(p, q), SumN(p, q), s, q1, q2, w1, w2),
      SumLeft(SumM(p, q), SumN(p, q), s, r1, r2, v1, v2), SumRight(SumM(p, q), SumN(p, q), s, q1, q2, w1, w2);
    CongSym(right, middle, P);
    CongTrans(left, middle, right, P);
  }

  /** The sum agrees with the affine addition law x3 = (x1 y2 + x2 y1) / (1 + d x1 x2 y1 y2),
      y3 = (y1 y2 + x1 x2) / (1 - d x1 x2 y1 y2), cleared of denominators. */
  lemma AddLawIsAffineLaw(p: Coords, q: Coords)
    requires p.OnCurve() && q.OnCurve()
    ensures var out, zz, k := AddLaw(p, q), p.z * q.z, D * (p.x * q.x * p.y * q.y);
      && Cong(out.x * (zz * zz + k), out.z * (SumE(p, q) * zz), P)
      && Cong(out.y * (zz * zz - k), out.z * (SumH(p, q) * zz), P)
  {
    var out, zz, k := AddLaw(p, q), p.z * q.z, D * (p.x * q.x * p.y * q.y);
    var n := SumN(p, q);
    CongMul(p.x * p.y, p.z * p.t, q.x * q.y, q.z * q.t, P);
    CongTimes(D, (p.x * p.y) * (q.x * q.y), (p.z * p.t) * (q.z * q.t));
    assert k == D * ((p.x * p.y) * (q.x * q.y));
    assert zz * n == D * ((p.z * p.t) * (q.z * q.t));
    CongRefl(zz * zz, P);
    CongAdd(zz * zz, zz * zz, k, zz * n, P);
    CongSub(zz * zz, zz * zz, k, zz * n, P);
    CongTimes(out.x, zz * zz + k, zz * zz + zz * n);
    CongTimes(out.y, zz * zz - k, zz * zz - zz * n);
    AffineTerms(SumE(p, q), SumH(p, q), zz, n);
  }

  lemma AffineTerms(e: int, h: int, m: int, n: int)
    ensures (e * (m - n)) * (m * m + m * n) == ((m - n) * (m + n)) * (e * m)
    ensures ((m + n) * h) * (m * m - m * n) == ((m - n) * (m + n)) * (h * m)
  {
  }

  lemma TransferEquation(l: int, l': int, r: int, r': int)
    requires Cong(l, l', P) && Cong(r, r', P) && Cong(l', r', P)
    ensures Cong(l, r, P)
  {
    CongSym(r, r', P);
    CongTrans(l, l', r', P);
    CongTrans(l, r', r, P);
  }

  lemma ScaledProducts(p: Coords, q: Coords, k: int)
    requires Cong(q.x * q.y, q.z * q.t, P) && p.CongTo(q.Scale(k))
    ensures Cong(p.x * p.y, p.z * p.t, P)
  {
    var s := q.Scale(k);
    CongTimes(k * k, q.x * q.y, q.z * q.t);
    ScaleTerms(k, q.x, q.y);
    ScaleTerms(k, q.z, q.t);
    CongMul(p.x, s.x, p.y, s.y, P);
    CongMul(p.z, s.z, p.t, s.t, P);
    TransferEquation(p.x * p.y, s.x * s.y, p.z * p.t, s.z * s.t);
  }

  lemma SquareCong(x: int, k: int, y: int)
    requires Cong(x, k * y, P)
    ensures Cong(x * x, (k * k) * (y * y), P)
  {
    CongMul(x, k * y, x, k * y, P);
    SquareProduct(k, y);
  }

  /** The curve equations are homogeneous and only see residues. */
  lemma ScaledOnCurve(p: Coords, q: Coords, k: int)
    requires q.OnCurve() && p.CongTo(q.Scale(k))
    ensures p.OnCurve()
  {
    ScaledProducts(p, q, k);
    var kk := k * k;
    SquareCong(p.x, k, q.x);
    SquareCong(p.y, k, q.y);
    SquareCong(p.z, k, q.z);
    SquareCong(p.t, k, q.t);
    CongTimes(D, p.t * p.t, kk * (q.t * q.t));
    CongSub(p.y * p.y, kk * (q.y * q.y), p.x * p.x, kk * (q.x * q.x), P);
    CongAdd(p.z * p.z, kk * (q.z * q.z), D * (p.t * p.t), D * (kk * (q.t * q.t)), P);
    CongTimes(kk, q.y * q.y - q.x * q.x, q.z * q.z + D * (q.t * q.t));
    Factored(kk, q.y * q.y, q.x * q.x, q.z * q.z, q.t * q.t);
    TransferEquation(p.y * p.y - p.x * p.x, kk * (q.y * q.y - q.x * q.x),
                     p.z * p.z + D * (p.t * p.t), kk * (q.z * q.z + D * (q.t * q.t)));
  }

  lemma Factored(kk: int, yy: int, xx: int, zz: int, tt: int)
    ensures kk * yy - kk * xx == kk * (yy - xx)
    ensures kk * zz + D * (kk * tt) == kk * (zz + D * tt)
  {
  }

  lemma ScaleTerms(k: int, x: int, y: int)
    ensures (k * x) * (k * y) == (k * k) * (x * y)
    ensures (k * k) * (y * y - x * x) == (k * y) * (k * y) - (k * x) * (k * x)
  {
  }

  /** The doubling formula over the integers. */
  ghost function DoubleLaw(p: Coords): Coords {
    var e := 2 * (p.x * p.y);
    var g, h := p.y * p.y - p.x * p.x, -(p.x * p.x) - p.y * p.y;
    var f := g - 2 * (p.z * p.z);
    Coords(e * f, g * h, f * g, e * h)
  }

  /** Doubling is adding a point to itself: the same projective point, scaled by -1. */
  lemma DoubleIsAdd(p: Coords)
    requires p.OnCurve()
    ensures DoubleLaw(p).CongTo(AddLaw(p, p).Scale(-1))
  {
    hide AddLaw, SumE, SumH, SumM, SumN;
    var a, b := p.z * p.z, D * (p.t * p.t);
    var g, g' := p.y * p.y - p.x * p.x, a + b;
    var h := -(p.x * p.x) - p.y * p.y;
    var e := 2 * (p.x * p.y);
    CongRefl(2 * a, P);
    CongSub(g, g', 2 * a, 2 * a, P);
    assert g' - 2 * a == b - a;
    CongTimes(e, g - 2 * a, b - a);
    CongRefl(h, P);
    CongMul(g, g', h, h, P);
    CongMul(g - 2 * a, b - a, g, g', P);
    CongRefl(e * h, P);
    hide Cong;
    AddSelfTerms(p);
  }

  lemma AddSelfTerms(p: Coords)
    ensures var a, b, e, h := p.z * p.z, D * (p.t * p.t), 2 * (p.x * p.y), -(p.x * p.x) - p.y * p.y;
      AddLaw(p, p).Scale(-1) == Coords(e * (b - a), (a + b) * h, (b - a) * (a + b), e * h)
  {
    var a, b, e, h := p.z * p.z, D * (p.t * p.t), 2 * (p.x * p.y), -(p.x * p.x) - p.y * p.y;
    var add := AddLaw(p, p);
    assert SumE(p, p) == e && SumH(p, p) == -h && SumM(p, p) == a && SumN(p, p) == b;
    Opposite(e, a - b, b - a);
    Opposite(a + b, -h, h);
    Opposite(a + b, a - b, b - a);
    Opposite(e, -h, h);
  }

  lemma Opposite(x: int, y: int, z: int)
    requires z == -y
    ensures -1 * (x * y) == x * z && -1 * (y * x) == z * x && x * y == y * x
  {
  }

  // ---------------------------------------------------------------------------
  // The limb methods
  // ---------------------------------------------------------------------------

  /** a is the canonical representative of the residue of x. */
  ghost predicate Holds(a: Limbs8, x: int) {
    Canonical(a) && Cong(Value(a), x, P)
  }

  // The field operations, with the integer expression each result stands for.

  method HeldProduct(a: Limbs8, b: Limbs8, ghost x: int, ghost y: int, ghost xy: int) returns (out: Limbs8)
    requires Holds(a, x) && Holds(b, y) && xy == x * y
    ensures Holds(out, xy)
  {
    out := Mul(a, b);
    CongMod(Value(a) * Value(b), P);
    CongMul(Value(a), x, Value(b), y, P);
    CongTrans(Value(out), Value(a) * Value(b), x * y, P);
  }

  method HeldSum(a: Limbs8, b: Limbs8, ghost x: int, ghost y: int) returns (out: Limbs8)
    requires Holds(a, x) && Holds(b, y)
    ensures Holds(out, x + y)
  {
    out := Field.Add(a, b);
    CongMod(Value(a) + Value(b), P);
    CongAdd(Value(a), x, Value(b), y, P);
    CongTrans(Value(out), Value(a) + Value(b), x + y, P);
  }

  method HeldDifference(a: Limbs8, b: Limbs8, ghost x: int, ghost y: int) returns (out: Limbs8)
    requires Holds(a, x) && Holds(b, y)
    ensures Holds(out, x - y)
  {
    out := Sub(a, b);
    CongMod(Value(a) - Value(b), P);
    CongSub(Value(a), x, Value(b), y, P);
    CongTrans(Value(out), Value(a) - Value(b), x - y, P);
  }

  /** The four products that end both point formulas. */
  method FinishPoint(e: Limbs8, f: Limbs8, g: Limbs8, h: Limbs8,
                     ghost e': int, ghost f': int, ghost g': int, ghost h': int) returns (out: Point)
    requires Holds(e, e') && Holds(f, f') && Holds(g, g') && Holds(h, h')
    ensures out.Reduced() && out.Values().CongTo(Coords(e' * f', g' * h', f' * g', e' * h'))
  {
    var x := HeldProduct(e, f, e', f', e' * f');
    var y := HeldProduct(g, h, g', h', g' * h');
    var z := HeldProduct(f, g, f', g', f' * g');
    var t := HeldProduct(e, h, e', h', e' * h');
    out := Point(x, y, z, t);
  }

  ghost predicate HoldsPoint(p: Point, c: Coords) {
    Holds(p.x, c.x) && Holds(p.y, c.y) && Holds(p.z, c.z) && Holds(p.t, c.t)
  }

  lemma HoldsValues(p: Point)
    requires p.Reduced()
    ensures HoldsPoint(p, p.Values())
  {
  }

  lemma AddTerms(p: Coords, q: Coords)
    ensures (p.y + p.x) * (q.y + q.x) - (p.y - p.x) * (q.y - q.x) == 2 * SumE(p, q)
    ensures (p.y + p.x) * (q.y + q.x) + (p.y - p.x) * (q.y - q.x) == 2 * SumH(p, q)
    ensures (p.z + p.z) * q.z == 2 * SumM(p, q)
    ensures (p.t * q.t) * (2 * D) == 2 * SumN(p, q)
  {
  }

  lemma ScaledSum(p: Coords, q: Coords)
    ensures var e, h, m, n := SumE(p, q), SumH(p, q), SumM(p, q), SumN(p, q);
      Coords((2 * e) * (2 * (m - n)), (2 * (m + n)) * (2 * h), (2 * (m - n)) * (2 * (m + n)), (2 * e) * (2 * h))
      == AddLaw(p, q).Scale(4)
  {
    var e, h, m, n := SumE(p, q), SumH(p, q), SumM(p, q), SumN(p, q);
    Quadruple(e, m - n);
    Quadruple(m + n, h);
    Quadruple(m - n, m + n);
    Quadruple(e, h);
  }

  lemma Quadruple(x: int, y: int)
    ensures (2 * x) * (2 * y) == 4 * (x * y)
  {
  }

  /** The body of point_add, on the integer expressions P and Q its arguments stand for. */
  method AddResidues(p: Point, q: Point, ghost pc: Coords, ghost qc: Coords) returns (out: Point)
    requires HoldsPoint(p, pc) && HoldsPoint(q, qc)
    ensures out.Reduced() && out.Values().CongTo(AddLaw(pc, qc).Scale(4))
  {
    ghost var a', b' := (pc.y - pc.x) * (qc.y - qc.x), (pc.y + pc.x) * (qc.y + qc.x);
    ghost var tt', e', h', m, n := pc.t * qc.t, SumE(pc, qc), SumH(pc, qc), SumM(pc, qc), SumN(pc, qc);
    AddTerms(pc, qc);
    ScaledSum(pc, qc);
    TwiceD();
    var left := HeldDifference(p.y, p.x, pc.y, pc.x);
    var right := HeldDifference(q.y, q.x, qc.y, qc.x);
    var a := HeldProduct(left, right, pc.y - pc.x, qc.y - qc.x, a');
    left := HeldSum(p.y, p.x, pc.y, pc.x);
    right := HeldSum(q.y, q.x, qc.y, qc.x);
    var b := HeldProduct(left, right, pc.y + pc.x, qc.y + qc.x, b');
    var tt := HeldProduct(p.t, q.t, pc.t, qc.t, tt');
    var c := HeldProduct(tt, kD2, tt', 2 * D, 2 * n);
    var zz := HeldSum(p.z, p.z, pc.z, pc.z);
    var d := HeldProduct(zz, q.z, pc.z + pc.z, qc.z, 2 * m);
    var e := HeldDifference(b, a, b', a');
    var f := HeldDifference(d, c, 2 * m, 2 * n);
    var g := HeldSum(d, c, 2 * m, 2 * n);
    var h := HeldSum(b, a, b', a');
    out := FinishPoint(e, f, g, h, 2 * e', 2 * (m - n), 2 * (m + n), 2 * h');
  }

  lemma TwiceD()
    ensures Holds(kD2, 2 * D)
  {
    CurveConstants();
    CongMod(2 * D, P);
  }

  method PointAdd(p: Point, q: Point) returns (out: Point)
    requires p.Reduced() && q.Reduced()
    ensures out.Reduced()
    ensures out.Values().CongTo(AddLaw(p.Values(), q.Values()).Scale(4))
    ensures p.Values().OnCurve() && q.Values().OnCurve() ==> out.Values().OnCurve()
  {
    HoldsValues(p);
    HoldsValues(q);
    out := AddResidues(p, q, p.Values(), q.Values());
    if p.Values().OnCurve() && q.Values().OnCurve() {
      AddLawOnCurve(p.Values(), q.Values());
      ScaledOnCurve(out.Values(), AddLaw(p.Values(), q.Values()), 4);
    }
  }

  lemma DoubleTerms(c: Coords)
    ensures (c.x + c.y) * (c.x + c.y) - c.x * c.x - c.y * c.y == 2 * (c.x * c.y)
  {
  }

  method DoubleResidues(p: Point, ghost c: Coords) returns (out: Point)
    requires HoldsPoint(p, c)
    ensures out.Reduced() && out.Values().CongTo(DoubleLaw(c))
  {
    ghost var a', b', zz' := c.x * c.x, c.y * c.y, c.z * c.z;
    ghost var e' := 2 * (c.x * c.y);
    DoubleTerms(c);
    ZeroHolds();
    var a := HeldProduct(p.x, p.x, c.x, c.x, a');
    var b := HeldProduct(p.y, p.y, c.y, c.y, b');
    var zz := HeldProduct(p.z, p.z, c.z, c.z, zz');
    var cc := HeldSum(zz, zz, zz', zz');
    var d := HeldDifference(kZero, a, 0, a');
    var xy := HeldSum(p.x, p.y, c.x, c.y);
    var square := HeldProduct(xy, xy, c.x + c.y, c.x + c.y, e' + a' + b');
    var e := HeldDifference(square, a, e' + a' + b', a');
    e := HeldDifference(e, b, e' + b', b');
    var g := HeldSum(d, b, -a', b');
    var f := HeldDifference(g, cc, b' - a', 2 * zz');
    var h := HeldDifference(d, b, -a', b');
    out := FinishPoint(e, f, g, h, e', b' - a' - 2 * zz', b' - a', -a' - b');
  }

  lemma ZeroHolds()
    ensures Holds(kZero, 0)
  {
    ValueOfZeros(kZero);
  }

  /** point_double stays on the curve and is the same projective point as point_add(p, p). */
  method PointDouble(p: Point) returns (out: Point)
    requires p.Reduced()
    ensures out.Reduced()
    ensures out.Values().CongTo(DoubleLaw(p.Values()))
    ensures p.Values().OnCurve() ==>
      out.Values().OnCurve() && out.Values().CongTo(AddLaw(p.Values(), p.Values()).Scale(-1))
  {
    HoldsValues(p);
    out := DoubleResidues(p, p.Values());
    if p.Values().OnCurve() {
      AddLawOnCurve(p.Values(), p.Values());
      DoubleIsAdd(p.Values());
      CongToTrans(out.Values(), DoubleLaw(p.Values()), AddLaw(p.Values(), p.Values()).Scale(-1));
      ScaledOnCurve(out.Values(), AddLaw(p.Values(), p.Values()), -1);
    }
  }

  lemma CongToTrans(a: Coords, b: Coords, c: Coords)
    requires a.CongTo(b) && b.CongTo(c)
    ensures a.CongTo(c)
  {
    CongTrans(a.x, b.x, c.x, P);
    CongTrans(a.y, b.y, c.y, P);
    CongTrans(a.z, b.z, c.z, P);
    CongTrans(a.t, b.t, c.t, P);
  }

  const Identity: Point := Point(kZero, kOne, kOne, kZero)

  lemma IdentityValues()
    ensures Identity.Reduced() && Identity.Values() == Coords(0, 1, 1, 0)
    ensures Coords(0, 1, 1, 0).OnCurve() && 1 % P == 1
  {
    Value8(kZero);
    Value8(kOne);
    PowValues();
    CongRefl(0, P);
    CongRefl(1, P);
  }

  /** The identity is on the curve, and adding it gives the same projective point. */
  lemma IdentityIsNeutral(p: Coords)
    requires p.OnCurve()
    ensures Identity.Values().OnCurve()
    ensures AddLaw(p, Identity.Values()).CongTo(p.Scale(p.z))
  {
    IdentityValues();
    CongRefl(p.z * p.x, P);
    CongRefl(p.z * p.y, P);
    CongRefl(p.z * p.z, P);
    assert AddLaw(p, Identity.Values()) == Coords(p.x * p.z, p.y * p.z, p.z * p.z, p.x * p.y);
  }

  /** Equal as projective points. */
  ghost predicate SamePoint(p: Coords, q: Coords) {
    Cong(p.x * q.z, q.x * p.z, P) && Cong(p.y * q.z, q.y * p.z, P)
  }

  method PointEqual(p: Point, q: Point) returns (equal: bool)
    requires p.Reduced() && q.Reduced()
    ensures equal <==> SamePoint(p.Values(), q.Values())
  {
    var left := Mul(p.x, q.z);
    var right := Mul(q.x, p.z);
    var sameX := ResiduesEqual(left, right, Value(p.x) * Value(q.z), Value(q.x) * Value(p.z));
    left := Mul(p.y, q.z);
    right := Mul(q.y, p.z);
    var sameY := ResiduesEqual(left, right, Value(p.y) * Value(q.z), Value(q.y) * Value(p.z));
    equal := sameX && sameY;
  }

  /** fe_equal on canonical elements decides congruence. */
  method ResiduesEqual(a: Limbs8, b: Limbs8, ghost x: int, ghost y: int) returns (equal: bool)
    requires Value(a) == x % P && Value(b) == y % P
    ensures equal <==> Cong(x, y, P)
  {
    equal := a == b;
    if Cong(x, y, P) {
      CongSameMod(x, y, P);
      ValueInjective(a, b);
    } else if equal {
      CongMod(x, P);
      CongMod(y, P);
      CongTrans(x, Value(a), y, P);
    }
  }

  /** X = 0 and Y = Z, the test for the identity. */
  method PointIsIdentity(p: Point) returns (yes: bool)
    requires p.Reduced()
    ensures yes <==> SamePoint(p.Values(), Identity.Values())
  {
    IdentityValues();
    yes := p.x == kZero && p.y == p.z;
    var c := p.Values();
    assert c.x * 1 == c.x && 0 * c.z == 0 && c.y * 1 == c.y && 1 * c.z == c.z;
    if SamePoint(c, Coords(0, 1, 1, 0)) {
      CanonicalUniqueZero(p.x);
      CanonicalUnique(p.y, p.z);
    } else if yes {
      CongRefl(0, P);
      CongRefl(c.y, P);
    }
  }

  lemma CanonicalUniqueZero(a: Limbs8)
    requires Canonical(a) && Cong(Value(a), 0, P)
    ensures a == kZero
  {
    ValueOfZeros(kZero);
    CanonicalUnique(a, kZero);
  }

  /** Scaling by 4 or by -1 gives the same projective point, and keeps Z away from zero. */
  lemma ScaledIsSame(p: Coords, q: Coords, k: int)
    requires k == 4 || k == -1
    requires p.CongTo(q.Scale(k))
    ensures SamePoint(p, q)
    ensures q.z % P != 0 ==> p.z % P != 0
  {
    CongRefl(q.z, P);
    CongRefl(q.x, P);
    CongRefl(q.y, P);
    CongMul(p.x, k * q.x, q.z, q.z, P);
    CongMul(p.y, k * q.y, q.z, q.z, P);
    CongMul(q.x, q.x, p.z, k * q.z, P);
    CongMul(q.y, q.y, p.z, k * q.z, P);
    assert (k * q.x) * q.z == q.x * (k * q.z);
    assert (k * q.y) * q.z == q.y * (k * q.z);
    CongSym(q.x * p.z, q.x * (k * q.z), P);
    CongSym(q.y * p.z, q.y * (k * q.z), P);
    CongTrans(p.x * q.z, (k * q.x) * q.z, q.x * p.z, P);
    CongTrans(p.y * q.z, (k * q.y) * q.z, q.y * p.z, P);
    if p.z % P == 0 {
      CongSym(p.z, k * q.z, P);
      CongTrans(k * q.z, p.z, 0, P);
      var j := CongElim(k * q.z, 0, P);
      if k == -1 {
        CongIntro(q.z, 0, -j, P);
      } else {
        OddModulus(q.z, j);
      }
    }
  }

  lemma OddModulus(z: int, j: int)
    requires 4 * z == j * P
    ensures z % P == 0
  {
    assert P == 4 * (P / 4) + 1;
    var quarter := P / 4;
    assert j * P == j * (4 * quarter + 1) == 4 * (j * quarter) + j;
    var i := z - j * quarter;
    assert j == 4 * i;
    assert z == i * P;
    Multiple(i, P);
  }
}
