/** Bytes and the little-endian integers that the wire frames and the journal frames are built
    from (write_u16, write_u32, write_u64 and their readers). */
module Bytes {
  import opened Congruence

  type Byte = b: int | 0 <= b < 256

  type Bytes = seq<Byte>

  /** 256^k */
  function Pow256(k: nat): (p: nat)
    ensures p > 0
  {
    if k == 0 then 1 else 256 * Pow256(k - 1)
  }

  /** The k low bytes of n, low byte first. */
  function Le(n: nat, k: nat): (s: Bytes)
    ensures |s| == k
  {
    if k == 0 then [] else [n % 256] + Le(n / 256, k - 1)
  }

  /** The number that little-endian bytes spell. */
  function LeValue(s: Bytes): nat
  {
    if s == [] then 0 else s[0] + 256 * LeValue(s[1..])
  }

  lemma {:induction false} LeRoundTrip(n: nat, k: nat)
    requires n < Pow256(k)
    ensures LeValue(Le(n, k)) == n
  {
    if k > 0 {
      LeRoundTrip(n / 256, k - 1);
      assert Le(n, k)[1..] == Le(n / 256, k - 1);
    }
  }

  lemma {:induction false} LeValueRoundTrip(s: Bytes)
    ensures LeValue(s) < Pow256(|s|) && Le(LeValue(s), |s|) == s
  {
    if s != [] {
      LeValueRoundTrip(s[1..]);
      LowByte(s[0], LeValue(s[1..]));
      assert s == [s[0]] + s[1..];
    }
  }

  lemma LowByte(b: Byte, high: nat)
    ensures (b + 256 * high) % 256 == b && (b + 256 * high) / 256 == high
  {
  }

  /** Byte i counts 256^i. */
  lemma {:induction false} LeAt(n: nat, k: nat, i: nat)
    requires i < k
    ensures Le(n, k)[i] == n / Pow256(i) % 256
  {
    if i > 0 {
      LeAt(n / 256, k - 1, i - 1);
      DivDiv(n, Pow256(i - 1));
    }
  }

  lemma DivDiv(n: nat, p: nat)
    requires p > 0
    ensures n / 256 / p == n / (256 * p)
  {
    var q, r := n / 256 / p, n / 256 % p;
    assert n == 256 * (q * p + r) + n % 256 && q * (256 * p) == 256 * (q * p);
    ModUnique(n, q, 256 * r + n % 256, 256 * p);
  }

  lemma PowValues256()
    ensures Pow256(2) == 0x10000 && Pow256(4) == 0x1_0000_0000 && Pow256(8) == 0x1_0000_0000_0000_0000
  {
    assert Pow256(3) == 256 * Pow256(2);
    assert Pow256(5) == 256 * Pow256(4);
    assert Pow256(7) == 256 * Pow256(6);
  }

  /** The first part of a concatenation, and what remains. */
  lemma Part(bytes: Bytes, at: nat, part: Bytes, rest: Bytes)
    requires at <= |bytes| && bytes[at..] == part + rest
    ensures at + |part| <= |bytes|
    ensures bytes[at..at + |part|] == part && bytes[at + |part|..] == rest
  {
    assert bytes[at..][..|part|] == bytes[at..at + |part|];
    assert bytes[at..][|part|..] == bytes[at + |part|..];
  }
}
