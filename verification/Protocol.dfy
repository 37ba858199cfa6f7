/** The signature equations of sections 5.1.5 to 5.1.7 of RFC 8032 over an abstract commutative
    group whose base point has order exactly L, with the hash, the point encoding and the point
    decoding as parameters. */
module Protocol {
  import opened Options
  import opened Words
  import opened Congruence
  import opened Scalars
  import opened Bytes

  datatype Scheme<!G> = Scheme(
    zero: G,
    add: (G, G) -> G,
    base: G,
    encode: G -> seq<Byte>,
    decode: seq<Byte> -> Option<G>,
    hash: seq<Byte> -> seq<Byte>)

  /** [n]p */
  function Times<G>(s: Scheme<G>, n: nat, p: G): G {
    if n == 0 then s.zero else s.add(p, Times(s, n - 1, p))
  }

  ghost predicate Associates<G>(s: Scheme<G>, p: G, q: G, r: G) {
    s.add(s.add(p, q), r) == s.add(p, s.add(q, r))
  }

  ghost predicate Commutes<G>(s: Scheme<G>, p: G, q: G) {
    s.add(p, q) == s.add(q, p)
  }

  ghost predicate ZeroNeutral<G>(s: Scheme<G>, p: G) {
    s.add(s.zero, p) == p && s.add(p, s.zero) == p
  }

  ghost predicate IsGroup<G(!new)>(s: Scheme<G>) {
    && (forall p, q, r :: Associates(s, p, q, r))
    && (forall p, q :: Commutes(s, p, q))
    && (forall p :: ZeroNeutral(s, p))
  }

  ghost predicate OrderAt<G>(s: Scheme<G>, n: nat) {
    Times(s, n, s.base) == s.zero <==> n % L == 0
  }

  /** The base point has order exactly L. */
  ghost predicate BaseHasOrder<G>(s: Scheme<G>) {
    forall n: nat :: OrderAt(s, n)
  }

  ghost predicate EncodesIn32<G>(s: Scheme<G>, p: G) {
    |s.encode(p)| == 32
  }

  ghost predicate DecodesBack<G>(s: Scheme<G>, p: G) {
    s.decode(s.encode(p)) == Some(p)
  }

  ghost predicate HashIs64<G>(s: Scheme<G>, message: seq<Byte>) {
    |s.hash(message)| == 64
  }

  ghost predicate CodecIsLawful<G(!new)>(s: Scheme<G>) {
    && (forall p :: EncodesIn32(s, p))
    && (forall p :: DecodesBack(s, p))
    && (forall m :: HashIs64(s, m))
  }

  ghost predicate Lawful<G(!new)>(s: Scheme<G>) {
    IsGroup(s) && BaseHasOrder(s) && CodecIsLawful(s)
  }

  // ---------------------------------------------------------------------------
  // Multiples
  // ---------------------------------------------------------------------------

  lemma {:induction false} TimesAdd<G(!new)>(s: Scheme<G>, m: nat, n: nat, p: G)
    requires IsGroup(s)
    ensures Times(s, m + n, p) == s.add(Times(s, m, p), Times(s, n, p))
  {
    if m == 0 {
      assert ZeroNeutral(s, Times(s, n, p));
    } else {
      TimesAdd(s, m - 1, n, p);
      assert Associates(s, p, Times(s, m - 1, p), Times(s, n, p));
    }
  }

  lemma {:induction false} TimesTimes<G(!new)>(s: Scheme<G>, m: nat, n: nat, p: G, mn: nat)
    requires IsGroup(s) && mn == m * n
    ensures Times(s, m, Times(s, n, p)) == Times(s, mn, p)
  {
    if m > 0 {
      Weigh(m - 1, 1, 0, n);
      TimesTimes(s, m - 1, n, p, mn - n);
      TimesAdd(s, n, mn - n, p);
    }
  }

  lemma QuotientRemainder(n: nat, q: nat, r: nat)
    requires q == n / L && r == n % L
    ensures n == q * L + r && (q * L) % L == 0
  {
    Multiple(q, L);
  }

  /** Multiples of the base point only see the scalar modulo L. */
  lemma TimesModOrder<G(!new)>(s: Scheme<G>, n: nat)
    requires Lawful(s)
    ensures Times(s, n % L, s.base) == Times(s, n, s.base)
  {
    var q, r := n / L, n % L;
    QuotientRemainder(n, q, r);
    var whole := q * L;
    assert OrderAt(s, whole);
    TimesAdd(s, whole, r, s.base);
    assert ZeroNeutral(s, Times(s, r, s.base));
  }

  /** A term with a negation can be cancelled. */
  lemma Cancelled<G(!new)>(s: Scheme<G>, p: G, q: G, r: G, negated: G)
    requires IsGroup(s) && s.add(negated, p) == s.zero && s.add(p, q) == s.add(p, r)
    ensures q == r
  {
    assert Associates(s, negated, p, q) && Associates(s, negated, p, r);
    assert ZeroNeutral(s, q) && ZeroNeutral(s, r);
  }

  /** Scalars below L are told apart by their multiples of the base point. */
  lemma MultiplesDiffer<G(!new)>(s: Scheme<G>, x: nat, y: nat)
    requires Lawful(s) && x <= y < L && Times(s, x, s.base) == Times(s, y, s.base)
    ensures x == y
  {
    TimesAdd(s, x, y - x, s.base);
    TimesAdd(s, x, 0, s.base);
    TimesAdd(s, L - x, x, s.base);
    ModUnique(L, 1, 0, L);
    assert OrderAt(s, L) && OrderAt(s, y - x);
    Cancelled(s, Times(s, x, s.base), Times(s, y - x, s.base), s.zero, Times(s, L - x, s.base));
    ModUnique(y - x, 0, y - x, L);
  }

  // ---------------------------------------------------------------------------
  // Keys and signatures
  // ---------------------------------------------------------------------------

  /** The secret scalar of a key: the low half of the hash with its bits clamped. */
  function Clamp(half: seq<Byte>): seq<Byte>
    requires |half| == 32
  {
    var top: nat := half[31] % 64 + 64;
    half[0 := half[0] - half[0] % 8][31 := top]
  }

  /** The clamped scalar is a multiple of 8 in [2^254, 2^255). */
  lemma ClampedScalar(half: seq<Byte>)
    requires |half| == 32
    ensures var a := Value(Decoded(Clamp(half)));
      a % 8 == 0 && Two(254) <= a < Two(255)
  {
    var bytes := Clamp(half);
    var limbs := Decoded(bytes);
    assert limbs[0] == LimbFromBytes(bytes[0], bytes[1], bytes[2], bytes[3]);
    assert limbs[7] == LimbFromBytes(bytes[28], bytes[29], bytes[30], bytes[31]);
    assert limbs[0] % 8 == 0 && 0x4000_0000 <= limbs[7] < 0x8000_0000;
    ClampedValue(limbs);
  }

  lemma ClampedValue(limbs: Limbs8)
    requires limbs[0] % 8 == 0 && 0x4000_0000 <= limbs[7] < 0x8000_0000
    ensures Value(limbs) % 8 == 0 && Two(254) <= Value(limbs) < Two(255)
  {
    LowBits(limbs);
    PowValues();
    Powers254();
    ValueBound(limbs[..7]);
    PrefixStep(limbs, 7);
    assert limbs[..8] == limbs;
  }

  lemma LowBits(limbs: Limbs8)
    requires limbs[0] % 8 == 0
    ensures Value(limbs) % 8 == 0
  {
    ValueSplit(limbs, 1);
    PrefixStep(limbs, 0);
    assert Pow32(1) == BASE && Value(limbs[..1]) == limbs[0];
    EighthOfBase(limbs[0], Value(limbs[1..]));
  }

  lemma EighthOfBase(low: nat, rest: nat)
    requires low % 8 == 0
    ensures (low + 0x1_0000_0000 * rest) % 8 == 0
  {
  }

  lemma Powers254()
    ensures 4 * Two(254) == Pow32(8) && 2 * Two(255) == Pow32(8)
  {
    TwoLimbs(8);
    TwoAdd(2, 254);
    TwoAdd(1, 255);
  }

  function ScalarOf(half: seq<Byte>): nat
    requires |half| == 32
  {
    Value(Decoded(Clamp(half)))
  }

  /** The scalar that a 64 byte hash stands for, before reduction. */
  function Wide(hash: seq<Byte>): nat
    requires |hash| == 64
  {
    Value(WideLimbs(hash))
  }

  function WideLimbs(hash: seq<Byte>): (limbs: seq<Word>)
    requires |hash| == 64
    ensures |limbs| == 16
  {
    seq(16, i requires 0 <= i < 16 =>
      LimbFromBytes(hash[4 * i], hash[4 * i + 1], hash[4 * i + 2], hash[4 * i + 3]))
  }

  function PublicKey<G(!new)>(s: Scheme<G>, seed: seq<Byte>): seq<Byte>
    requires CodecIsLawful(s)
  {
    assert HashIs64(s, seed);
    s.encode(Times(s, ScalarOf(s.hash(seed)[..32]), s.base))
  }

  ghost function Challenge<G(!new)>(s: Scheme<G>, r: seq<Byte>, key: seq<Byte>, message: seq<Byte>): nat
    requires CodecIsLawful(s)
  {
    assert HashIs64(s, r + key + message);
    Wide(s.hash(r + key + message)) % L
  }

  ghost function Nonce<G(!new)>(s: Scheme<G>, seed: seq<Byte>, message: seq<Byte>): nat
    requires CodecIsLawful(s)
  {
    assert HashIs64(s, seed);
    assert HashIs64(s, s.hash(seed)[32..] + message);
    Wide(s.hash(s.hash(seed)[32..] + message)) % L
  }

  /** sig is the signature of the message under the seed: R = [r]B and S = r + k a mod L. */
  ghost predicate IsSignature<G(!new)>(s: Scheme<G>, seed: seq<Byte>, message: seq<Byte>, sig: seq<Byte>)
    requires CodecIsLawful(s)
  {
    assert HashIs64(s, seed);
    var r := Nonce(s, seed, message);
    var k := Challenge(s, s.encode(Times(s, r, s.base)), PublicKey(s, seed), message);
    && |sig| == 64
    && sig[..32] == s.encode(Times(s, r, s.base))
    && Value(Decoded(sig[32..])) == ((k * ScalarOf(s.hash(seed)[..32])) % L + r) % L
  }

  /** ed25519_verify: both points decode, S is canonical, and [S]B = R + [k]A. */
  ghost predicate Verifies<G(!new)>(s: Scheme<G>, key: seq<Byte>, message: seq<Byte>, sig: seq<Byte>)
    requires CodecIsLawful(s) && |sig| == 64
  {
    var a, r, scalar := s.decode(key), s.decode(sig[..32]), Value(Decoded(sig[32..]));
    && a.Some? && r.Some? && scalar < L
    && Times(s, scalar, s.base) == s.add(r.value, Times(s, Challenge(s, sig[..32], key, message), a.value))
  }

  /** ed25519_verify_strict: the key must also not be of small order. */
  ghost predicate VerifiesStrictly<G(!new)>(s: Scheme<G>, key: seq<Byte>, message: seq<Byte>, sig: seq<Byte>)
    requires CodecIsLawful(s) && |sig| == 64
  {
    s.decode(key).Some? && Times(s, 8, s.decode(key).value) != s.zero && Verifies(s, key, message, sig)
  }

  // ---------------------------------------------------------------------------
  // The theorems
  // ---------------------------------------------------------------------------

  /** [x + k a]B = [x]B + [k]([a]B), whatever representative modulo L the left side uses. */
  lemma Equation<G(!new)>(s: Scheme<G>, k: nat, a: nat, r: nat, ka: nat)
    requires Lawful(s) && ka == k * a
    ensures Times(s, (ka % L + r) % L, s.base)
         == s.add(Times(s, r, s.base), Times(s, k, Times(s, a, s.base)))
  {
    TimesTimes(s, k, a, s.base, ka);
    TimesModOrder(s, ka);
    TimesModOrder(s, ka % L + r);
    TimesAdd(s, ka % L, r, s.base);
    assert Commutes(s, Times(s, r, s.base), Times(s, ka, s.base));
  }

  lemma EightTimesIsNotMultiple(a: nat)
    requires a % 8 == 0 && Two(254) <= a < Two(255)
    ensures (8 * a) % L != 0
  {
    if (8 * a) % L == 0 {
      var j := (8 * a) / L;
      var i := a / 8;
      assert 8 * a == j * L && a == 8 * i;
      OddDivides(a, j);
      OddDivides(i, j / 8);
      assert j / 8 / 8 >= 1;
      MulMono(1, j / 8 / 8, L);
      Powers254();
      PowValues();
      assert false;
    }
  }

  /** L is 5 modulo 8, so a multiple of L that is divisible by 8 has a cofactor divisible by 8. */
  lemma OddDivides(x: nat, j: nat)
    requires 8 * x == j * L
    ensures j % 8 == 0 && x == (j / 8) * L
  {
    var m, q := L / 8, j / 8;
    assert L == 8 * m + 5;
    Weigh(8 * m, 5, 0, j);
    MulAssoc(8, m, j);
    assert j * L == 8 * (m * j) + 5 * j;
    assert j % 8 == 0;
    MulAssoc(8, q, L);
  }

  lemma SameScalarBytes(x: seq<Byte>, y: seq<Byte>)
    requires |x| == |y| == 32 && Value(Decoded(x)) == Value(Decoded(y))
    ensures x == y
  {
    ValueInjective(Decoded(x), Decoded(y));
    LimbsRoundTrip(x);
    LimbsRoundTrip(y);
  }

  lemma SameMultiple<G(!new)>(s: Scheme<G>, x: nat, y: nat)
    requires Lawful(s) && x < L && y < L && Times(s, x, s.base) == Times(s, y, s.base)
    ensures x == y
  {
    if x <= y {
      MultiplesDiffer(s, x, y);
    } else {
      MultiplesDiffer(s, y, x);
    }
  }

  /** No second S: the key, the message and R determine the scalar that is accepted. */
  lemma ScalarIsUnique<G(!new)>(s: Scheme<G>, key: seq<Byte>, message: seq<Byte>, sig: seq<Byte>, sig': seq<Byte>)
    requires Lawful(s) && |sig| == |sig'| == 64 && sig[..32] == sig'[..32]
    requires Verifies(s, key, message, sig) && Verifies(s, key, message, sig')
    ensures sig == sig'
  {
    SameMultiple(s, Value(Decoded(sig[32..])), Value(Decoded(sig'[32..])));
    SameScalarBytes(sig[32..], sig'[32..]);
    assert sig == sig[..32] + sig[32..] && sig' == sig'[..32] + sig'[32..];
  }

  /** The public key of a seed is never refused as one of small order. */
  lemma HonestKeyIsNotSmall<G(!new)>(s: Scheme<G>, seed: seq<Byte>)
    requires Lawful(s)
    ensures s.decode(PublicKey(s, seed)).Some? && Times(s, 8, s.decode(PublicKey(s, seed)).value) != s.zero
  {
    assert HashIs64(s, seed);
    var half := s.hash(seed)[..32];
    var a := ScalarOf(half);
    assert DecodesBack(s, Times(s, a, s.base));
    ClampedScalar(half);
    EightTimesIsNotMultiple(a);
    TimesTimes(s, 8, a, s.base, 8 * a);
    assert OrderAt(s, 8 * a);
  }

  /** For an honest key and a nonce point [r]B, exactly S = r + k a mod L is accepted. */
  lemma AcceptedExactly<G(!new)>(s: Scheme<G>, seed: seq<Byte>, message: seq<Byte>, r: nat, sig: seq<Byte>)
    requires Lawful(s) && |sig| == 64 && sig[..32] == s.encode(Times(s, r, s.base))
    ensures var k := Challenge(s, sig[..32], PublicKey(s, seed), message);
      assert HashIs64(s, seed);
      Verifies(s, PublicKey(s, seed), message, sig)
      <==> Value(Decoded(sig[32..])) == ((k * ScalarOf(s.hash(seed)[..32])) % L + r) % L
  {
    assert HashIs64(s, seed);
    var a := ScalarOf(s.hash(seed)[..32]);
    var k := Challenge(s, sig[..32], PublicKey(s, seed), message);
    var x, y := Value(Decoded(sig[32..])), ((k * a) % L + r) % L;
    assert DecodesBack(s, Times(s, a, s.base)) && DecodesBack(s, Times(s, r, s.base));
    Equation(s, k, a, r, k * a);
    if Verifies(s, PublicKey(s, seed), message, sig) {
      SameMultiple(s, x, y);
    }
  }

  // ---------------------------------------------------------------------------
  // The equations with every input written out
  // ---------------------------------------------------------------------------

  const TOP: nat := 0x40000000_00000000_00000000_00000000_00000000_00000000_00000000_00000000

  /** Section 5.1.5: the little-endian number with its three low bits cleared, bit 255 cleared and bit 254 set. */
  function SecretScalar(half: seq<Byte>): nat {
    var low := LeValue(half) % TOP;
    TOP + low - low % 8
  }

  lemma LowThree(b0: nat, rest: nat, low: nat)
    requires low == b0 + 256 * rest
    ensures low % 8 == b0 % 8
  {
    ModUnique(low, b0 / 8 + 32 * rest, b0 % 8, 8);
  }

  lemma TopByte(weight: nat, b: nat, low: nat)
    requires low < weight
    ensures (low + weight * b) % (64 * weight) == low + weight * (b % 64)
  {
    var q, r := b / 64, b % 64;
    assert b == 64 * q + r;
    Weigh(64 * q, r, 0, weight);
    MulAssoc(64, q, weight);
    MulMono(r + 1, 64, weight);
    Weigh(r, 1, 0, weight);
    ModUnique(low + weight * b, q, low + weight * r, 64 * weight);
  }

  lemma TopWeight()
    ensures 64 * Pow256(31) == TOP
  {
    PowersAgree(7);
    PowValues();
    assert Pow256(29) == 256 * Pow256(28) && Pow256(30) == 256 * Pow256(29) && Pow256(31) == 256 * Pow256(30);
  }

  lemma Ends(bytes: seq<Byte>)
    requires |bytes| == 32
    ensures var low := LeValue(bytes[..31]);
      && LeValue(bytes) == low + Pow256(31) * bytes[31] && low < Pow256(31)
      && low == bytes[0] + 256 * LeValue(bytes[1..31])
  {
    var top := bytes[31..];
    assert bytes == bytes[..31] + top;
    LeAppend(bytes[..31], top);
    LeOne(top);
    LeFirst(bytes[..31]);
    hide LeValue, Pow256;
    LeValueRoundTrip(bytes[..31]);
    assert bytes[..31][1..] == bytes[1..31];
  }

  lemma LeOne(s: seq<Byte>)
    requires |s| == 1
    ensures LeValue(s) == s[0]
  {
    assert s[1..] == [];
  }

  lemma LeFirst(s: seq<Byte>)
    requires s != []
    ensures LeValue(s) == s[0] + 256 * LeValue(s[1..])
  {
  }

  /** Clamping the bytes is clamping the number. */
  lemma ClampIsSecret(half: seq<Byte>)
    requires |half| == 32
    ensures ScalarOf(half) == SecretScalar(half)
  {
    hide LeValue, Pow256, Decoded, Value;
    var c := Clamp(half);
    ScalarIsLittleEndian(c, Decoded(c));
    Ends(half);
    Ends(c);
    TopWeight();
    assert c[1..31] == half[1..31] && c[31] == half[31] % 64 + 64;
    TopByte(Pow256(31), half[31], LeValue(half[..31]));
    Weigh(half[31] % 64, 64, 0, Pow256(31));
    var low := LeValue(half) % TOP;
    LowOfClamped(half, low);
  }

  lemma LowOfClamped(half: seq<Byte>, low: nat)
    requires |half| == 32 && low == LeValue(half[..31]) + Pow256(31) * (half[31] % 64)
    ensures low % 8 == half[0] % 8
  {
    hide LeValue;
    Ends(half);
    assert Pow256(31) == 256 * Pow256(30);
    MulAssoc(256, Pow256(30), half[31] % 64);
    LowThree(half[0], LeValue(half[1..31]) + Pow256(30) * (half[31] % 64), low);
  }

  /** A hash as a number is its bytes, low byte first. */
  lemma WideIsLittleEndian(hash: seq<Byte>)
    requires |hash| == 64
    ensures Wide(hash) == LeValue(hash)
  {
    LimbsAreLittleEndian(hash, WideLimbs(hash));
  }

  /** Section 5.1.5: the public key. */
  ghost predicate KeyOf<G(!new)>(s: Scheme<G>, seed: seq<Byte>, a: nat, key: seq<Byte>)
    requires HashIs64(s, seed)
  {
    a == SecretScalar(s.hash(seed)[..32]) && key == s.encode(Times(s, a, s.base))
  }

  lemma PublicKeyIs<G(!new)>(s: Scheme<G>, seed: seq<Byte>)
    requires CodecIsLawful(s)
    ensures HashIs64(s, seed) && KeyOf(s, seed, ScalarOf(s.hash(seed)[..32]), PublicKey(s, seed))
  {
    assert HashIs64(s, seed);
    ClampIsSecret(s.hash(seed)[..32]);
  }

  lemma AddMods(x: nat, y: nat, r: nat)
    requires Cong(x, y, L)
    ensures (x % L + r % L) % L == (y + r) % L
  {
    hide Cong;
    CongMod(x, L);
    CongTrans(x % L, x, y, L);
    CongMod(r, L);
    CongAdd(x % L, y, r % L, r, L);
    CongSameMod(x % L + r % L, y + r, L);
  }

  /** k a + r modulo L does not depend on which factors were reduced on the way. */
  lemma ResponseIs(k: nat, a: nat, r: nat)
    ensures (((k % L) * a) % L + r % L) % L == (k * a + r) % L
  {
    hide Cong;
    CongMod(k, L);
    CongRefl(a, L);
    CongMul(k % L, k, a, a, L);
    AddMods((k % L) * a, k * a, r);
  }

  /** Section 5.1.6: R commits to SHA-512(prefix || M), S answers SHA-512(R || A || M); nothing else enters. */
  lemma SignatureIs<G(!new)>(s: Scheme<G>, seed: seq<Byte>, message: seq<Byte>, sig: seq<Byte>, a: nat, key: seq<Byte>)
    requires CodecIsLawful(s) && HashIs64(s, seed) && KeyOf(s, seed, a, key) && |sig| == 64
    ensures var r := LeValue(s.hash(s.hash(seed)[32..] + message));
      var point := s.encode(Times(s, r % L, s.base));
      var k := LeValue(s.hash(point + key + message));
      IsSignature(s, seed, message, sig) <==> sig[..32] == point && LeValue(sig[32..]) == (k * a + r) % L
  {
    hide LeValue, Wide, Decoded, ScalarOf, SecretScalar, Clamp;
    PublicKeyIs(s, seed);
    var prefix := s.hash(seed)[32..];
    assert HashIs64(s, prefix + message);
    WideIsLittleEndian(s.hash(prefix + message));
    var r := LeValue(s.hash(prefix + message));
    var point := s.encode(Times(s, r % L, s.base));
    assert HashIs64(s, point + key + message);
    WideIsLittleEndian(s.hash(point + key + message));
    ScalarIsLittleEndian(sig[32..], Decoded(sig[32..]));
    ResponseIs(LeValue(s.hash(point + key + message)), a, r);
  }

  /** Section 5.1.7: what is accepted, over SHA-512(R || A || M). */
  lemma VerifiesIs<G(!new)>(s: Scheme<G>, key: seq<Byte>, message: seq<Byte>, sig: seq<Byte>)
    requires CodecIsLawful(s) && |sig| == 64
    ensures Verifies(s, key, message, sig)
       <==> && s.decode(key).Some? && s.decode(sig[..32]).Some? && LeValue(sig[32..]) < L
            && Times(s, LeValue(sig[32..]), s.base)
               == s.add(s.decode(sig[..32]).value,
                        Times(s, LeValue(s.hash(sig[..32] + key + message)) % L, s.decode(key).value))
  {
    hide LeValue, Wide, Decoded;
    assert HashIs64(s, sig[..32] + key + message);
    WideIsLittleEndian(s.hash(sig[..32] + key + message));
    ScalarIsLittleEndian(sig[32..], Decoded(sig[32..]));
  }

  lemma CancelAdded(x: nat, y: nat, r: nat)
    requires (x + r) % L == (y + r) % L
    ensures x % L == y % L
  {
    hide Cong;
    CongMod(x + r, L);
    CongMod(y + r, L);
    CongTrans(x + r, (x + r) % L, y + r, L);
    CongRefl(r, L);
    CongSub(x + r, y + r, r, r, L);
    CongSameMod(x, y, L);
  }

  /** A signature under an honest key that is accepted for two messages needs their two hashes to agree, up to
      multiples of the order and the secret scalar. */
  lemma OneSignatureTwoMessages<G(!new)>(s: Scheme<G>, seed: seq<Byte>, r: nat, sig: seq<Byte>, a: nat, key: seq<Byte>,
                                         m: seq<Byte>, m': seq<Byte>)
    requires Lawful(s) && HashIs64(s, seed) && KeyOf(s, seed, a, key)
    requires |sig| == 64 && sig[..32] == s.encode(Times(s, r, s.base))
    requires Verifies(s, key, m, sig) && Verifies(s, key, m', sig)
    ensures (LeValue(s.hash(sig[..32] + key + m)) * a) % L == (LeValue(s.hash(sig[..32] + key + m')) * a) % L
  {
    hide LeValue, Wide, Decoded, ScalarOf, SecretScalar, Clamp;
    PublicKeyIs(s, seed);
    AcceptedIs(s, seed, m, r, sig);
    AcceptedIs(s, seed, m', r, sig);
    CancelAdded(LeValue(s.hash(sig[..32] + key + m)) * a, LeValue(s.hash(sig[..32] + key + m')) * a, r);
  }

  /** AcceptedExactly with its hash written out. */
  lemma AcceptedIs<G(!new)>(s: Scheme<G>, seed: seq<Byte>, message: seq<Byte>, r: nat, sig: seq<Byte>)
    requires Lawful(s) && |sig| == 64 && sig[..32] == s.encode(Times(s, r, s.base))
    ensures HashIs64(s, seed)
    ensures var a, key := ScalarOf(s.hash(seed)[..32]), PublicKey(s, seed);
      Verifies(s, key, message, sig)
      <==> LeValue(sig[32..]) == (LeValue(s.hash(sig[..32] + key + message)) * a + r) % L
  {
    hide LeValue, Wide, Decoded, ScalarOf, Verifies, Times, PublicKey;
    assert HashIs64(s, seed);
    var a, key := ScalarOf(s.hash(seed)[..32]), PublicKey(s, seed);
    AcceptedExactly(s, seed, message, r, sig);
    assert HashIs64(s, sig[..32] + key + message);
    WideIsLittleEndian(s.hash(sig[..32] + key + message));
    ScalarIsLittleEndian(sig[32..], Decoded(sig[32..]));
    ResponseUnreduced(LeValue(s.hash(sig[..32] + key + message)), a, r);
  }

  lemma ResponseUnreduced(k: nat, a: nat, r: nat)
    ensures (((k % L) * a) % L + r) % L == (k * a + r) % L
  {
    hide Cong;
    ResponseIs(k, a, r);
    CongMod(r, L);
    CongRefl(((k % L) * a) % L, L);
    CongAdd(((k % L) * a) % L, ((k % L) * a) % L, r % L, r, L);
    CongSameMod(((k % L) * a) % L + r % L, ((k % L) * a) % L + r, L);
  }

  /** An honest signature passes both verifications, for every seed and every message. */
  lemma HonestSignatureVerifies<G(!new)>(s: Scheme<G>, seed: seq<Byte>, message: seq<Byte>, sig: seq<Byte>)
    requires Lawful(s) && IsSignature(s, seed, message, sig)
    ensures Verifies(s, PublicKey(s, seed), message, sig)
    ensures VerifiesStrictly(s, PublicKey(s, seed), message, sig)
  {
    AcceptedExactly(s, seed, message, Nonce(s, seed, message), sig);
    HonestKeyIsNotSmall(s, seed);
  }

  // ---------------------------------------------------------------------------
  // The hypotheses hold together: integers modulo 8 L
  // ---------------------------------------------------------------------------

  type Residue = n: nat | n < 8 * L

  function AddResidues(x: Residue, y: Residue): Residue {
    if x + y < 8 * L then x + y else x + y - 8 * L
  }

  function DecodeResidue(bytes: seq<Byte>): Option<Residue> {
    if |bytes| == 32 && LeValue(bytes) < 8 * L then Some(LeValue(bytes)) else None
  }

  /** Like the curve group, this one has 8 L elements, and 8 has order exactly L in it. */
  function ResidueScheme(): Scheme<Residue> {
    Scheme(0, (x, y) => AddResidues(x, y), 8, (x: Residue) => Le(x, 32), b => DecodeResidue(b), _ => seq(64, _ => 0))
  }

  lemma ResidueStep(m: nat, next: nat)
    requires next == (if m % (8 * L) + 8 < 8 * L then m % (8 * L) + 8 else m % (8 * L) + 8 - 8 * L)
    ensures (m + 8) % (8 * L) == next
  {
    var order := 8 * L;
    var q, r := m / order, m % order;
    assert m == q * order + r;
    if r + 8 < order {
      ModUnique(m + 8, q, r + 8, order);
    } else {
      ModUnique(m + 8, q + 1, r + 8 - order, order);
    }
  }

  lemma NoTimes()
    ensures Times(ResidueScheme(), 0, 8) == 0 && 0 % (8 * L) == 0
  {
  }

  lemma OneMoreTime(n: nat)
    requires n > 0
    ensures Times(ResidueScheme(), n, 8) == AddResidues(8, Times(ResidueScheme(), n - 1, 8))
    ensures forall x: Residue :: AddResidues(8, x) == if x + 8 < 8 * L then x + 8 else x + 8 - 8 * L
  {
  }

  lemma {:induction false} ResidueTimes(n: nat)
    ensures Times(ResidueScheme(), n, 8) == (8 * n) % (8 * L)
  {
    if n == 0 {
      NoTimes();
    } else {
      OneMoreTime(n);
      hide *;
      ResidueTimes(n - 1);
      ResidueStep(8 * n - 8, Times(ResidueScheme(), n, 8));
    }
  }

  lemma ResidueOrder(n: nat)
    ensures (8 * n) % (8 * L) == 0 <==> n % L == 0
  {
    var q, r := n / L, n % L;
    assert n == q * L + r;
    assert 8 * n == q * (8 * L) + 8 * r;
    ModUnique(8 * n, q, 8 * r, 8 * L);
  }

  lemma Pow256Pow32()
    ensures Pow256(32) == Pow32(8)
  {
    PowValues();
    PowValues256();
    assert Pow256(9) == 256 * Pow256(8);
    assert Pow256(11) == 256 * Pow256(10);
    assert Pow256(13) == 256 * Pow256(12);
    assert Pow256(15) == 256 * Pow256(14);
    assert Pow256(17) == 256 * Pow256(16);
    assert Pow256(19) == 256 * Pow256(18);
    assert Pow256(21) == 256 * Pow256(20);
    assert Pow256(23) == 256 * Pow256(22);
    assert Pow256(25) == 256 * Pow256(24);
    assert Pow256(27) == 256 * Pow256(26);
    assert Pow256(29) == 256 * Pow256(28);
    assert Pow256(31) == 256 * Pow256(30);
  }

  /** The laws assumed of the group, the codec and the hash are consistent. */
  lemma HypothesesAreConsistent()
    ensures Lawful(ResidueScheme())
  {
    var s := ResidueScheme();
    forall p: Residue
      ensures DecodesBack(s, p)
    {
      OrderLimbs();
      Pow256Pow32();
      LeRoundTrip(p, 32);
    }
    forall n: nat
      ensures OrderAt(s, n)
    {
      ResidueTimes(n);
      ResidueOrder(n);
    }
    assert forall m :: HashIs64(s, m);
  }
}
