/** Congruence of integers modulo m, with the few laws the residue proofs are chains of. */
module Congruence {
  ghost predicate Cong(x: int, y: int, m: nat)
    requires m > 0
  {
    (x - y) % m == 0
  }

  lemma Multiple(k: int, m: nat)
    requires m > 0
    ensures (k * m) % m == 0
  {
    ModUnique(k * m, k, 0, m);
  }

  /** Quotient and remainder are determined by the division equation. */
  lemma ModUnique(x: int, k: int, r: nat, m: nat)
    requires m > 0 && r < m && x == k * m + r
    ensures x % m == r && x / m == k
  {
    var q, s := x / m, x % m;
    assert x == q * m + s;
    assert (k - q) * m == s - r;
    assert (q - k) * m == r - s;
    if k - q >= 1 {
      Grows(k - q, m);
    } else if k - q <= -1 {
      Grows(q - k, m);
    }
  }

  lemma Grows(n: int, m: nat)
    requires n >= 1
    ensures n * m >= m
  {
  }

  lemma CongIntro(x: int, y: int, k: int, m: nat)
    requires m > 0 && x == y + k * m
    ensures Cong(x, y, m)
  {
    Multiple(k, m);
  }

  lemma CongElim(x: int, y: int, m: nat) returns (k: int)
    requires m > 0 && Cong(x, y, m)
    ensures x == y + k * m
  {
    k := (x - y) / m;
  }

  lemma CongSym(x: int, y: int, m: nat)
    requires m > 0 && Cong(x, y, m)
    ensures Cong(y, x, m)
  {
    var k := CongElim(x, y, m);
    CongIntro(y, x, -k, m);
  }

  lemma CongTrans(x: int, y: int, z: int, m: nat)
    requires m > 0 && Cong(x, y, m) && Cong(y, z, m)
    ensures Cong(x, z, m)
  {
    var k := CongElim(x, y, m);
    var l := CongElim(y, z, m);
    CongIntro(x, z, k + l, m);
  }

  lemma CongAdd(x: int, y: int, u: int, v: int, m: nat)
    requires m > 0 && Cong(x, y, m) && Cong(u, v, m)
    ensures Cong(x + u, y + v, m)
  {
    var k := CongElim(x, y, m);
    var l := CongElim(u, v, m);
    CongIntro(x + u, y + v, k + l, m);
  }

  lemma CongSub(x: int, y: int, u: int, v: int, m: nat)
    requires m > 0 && Cong(x, y, m) && Cong(u, v, m)
    ensures Cong(x - u, y - v, m)
  {
    var k := CongElim(x, y, m);
    var l := CongElim(u, v, m);
    CongIntro(x - u, y - v, k - l, m);
  }

  lemma CongMul(x: int, y: int, u: int, v: int, m: nat)
    requires m > 0 && Cong(x, y, m) && Cong(u, v, m)
    ensures Cong(x * u, y * v, m)
  {
    var k := CongElim(x, y, m);
    var l := CongElim(u, v, m);
    CongScale(x, y, k, u, m);
    CongScale(u, v, l, y, m);
    CongTrans(x * u, y * u, y * v, m);
  }

  lemma CongScale(x: int, y: int, k: int, u: int, m: nat)
    requires m > 0 && x == y + k * m
    ensures Cong(x * u, y * u, m) && Cong(u * x, u * y, m)
  {
    calc {
      x * u;
      (y + k * m) * u;
      y * u + (k * m) * u;
      y * u + (k * u) * m;
    }
    CongIntro(x * u, y * u, k * u, m);
  }

  lemma CongMod(x: int, m: nat)
    requires m > 0
    ensures Cong(x % m, x, m) && Cong(x, x % m, m)
  {
    CongIntro(x, x % m, x / m, m);
    CongIntro(x % m, x, -(x / m), m);
  }

  /** Congruent numbers have the same remainder, and a reduced one is its own. */
  lemma CongSameMod(x: int, y: int, m: nat)
    requires m > 0 && Cong(x, y, m)
    ensures x % m == y % m
  {
    var k := CongElim(x, y, m);
    assert y == (y / m) * m + y % m;
    assert x == (y / m + k) * m + y % m;
    ModUnique(x, y / m + k, y % m, m);
  }

  lemma CongReduced(x: nat, y: int, m: nat)
    requires m > 0 && x < m && Cong(x, y, m)
    ensures x == y % m
  {
    CongSameMod(x, y, m);
    ModUnique(x, 0, x, m);
  }

  lemma CongRefl(x: int, m: nat)
    requires m > 0
    ensures Cong(x, x, m)
  {
  }
}
