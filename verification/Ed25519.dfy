/** Signing and verification on limbs (src/ed25519.cpp), proved against the group level
    equations of module Protocol. The group law of the curve, the point codec and SHA-512 enter
    as hypotheses and parameters. */
module Ed25519 {
  import opened Bytes
  import opened Options
  import opened Words
  import opened Congruence
  import Field
  import opened Curve
  import Scalars
  import opened Protocol

  /** How limb points are read as group elements. isPoint and element only wrap Valid and rep;
      the methods below the two point formulas never look inside them. */
  datatype View<!G> = View(isPoint: Point -> bool, element: Point -> G, rep: Coords -> G)

  /** Coordinates of a curve point: both equations hold and Z is not zero. */
  ghost predicate IsPoint(c: Coords) {
    c.OnCurve() && c.z % Field.P != 0
  }

  ghost predicate Valid(p: Point) {
    p.Reduced() && IsPoint(p.Values())
  }

  ghost predicate ReadsAt<G>(v: View<G>, p: Point) {
    && (v.isPoint(p) <==> Valid(p))
    && v.element(p) == v.rep(p.Values())
  }

  /** The complete addition formula computes the group sum. */
  ghost predicate SumAt<G>(s: Scheme<G>, v: View<G>, c: Coords, c': Coords) {
    AddLaw(c, c').z % Field.P != 0 && v.rep(AddLaw(c, c')) == s.add(v.rep(c), v.rep(c'))
  }

  /** Coordinates stand for the same element exactly when they are the same projective point. */
  ghost predicate EqualityAt<G>(v: View<G>, c: Coords, c': Coords) {
    SamePoint(c, c') <==> v.rep(c) == v.rep(c')
  }

  /** What is assumed of the curve: v reads coordinates as elements of the group. */
  ghost predicate Represents<G(!new)>(s: Scheme<G>, v: View<G>) {
    && IsGroup(s)
    && v.rep(Coords(0, 1, 1, 0)) == s.zero
    && (forall p :: ReadsAt(v, p))
    && (forall c, c' | IsPoint(c) && IsPoint(c') :: SumAt(s, v, c, c'))
    && (forall c, c' | IsPoint(c) && IsPoint(c') :: EqualityAt(v, c, c'))
  }

  lemma IdentityValid<G(!new)>(s: Scheme<G>, v: View<G>)
    requires Represents(s, v)
    ensures v.isPoint(Identity) && v.element(Identity) == s.zero
  {
    IdentityValues();
    assert ReadsAt(v, Identity);
  }

  lemma SumIsRead<G(!new)>(s: Scheme<G>, v: View<G>, p: Point, q: Point, out: Point, k: int)
    requires Represents(s, v) && v.isPoint(p) && v.isPoint(q) && out.Reduced()
    requires k == 4 || k == -1
    requires out.Values().CongTo(AddLaw(p.Values(), q.Values()).Scale(k))
    ensures v.isPoint(out) && v.element(out) == s.add(v.element(p), v.element(q))
  {
    assert ReadsAt(v, p) && ReadsAt(v, q) && ReadsAt(v, out);
    AddLawOnCurve(p.Values(), q.Values());
    assert SumAt(s, v, p.Values(), q.Values());
    ScaledIsSame(out.Values(), AddLaw(p.Values(), q.Values()), k);
    ScaledOnCurve(out.Values(), AddLaw(p.Values(), q.Values()), k);
    assert EqualityAt(v, out.Values(), AddLaw(p.Values(), q.Values()));
  }

  method Add<G(!new)>(p: Point, q: Point, ghost s: Scheme<G>, ghost v: View<G>) returns (out: Point)
    requires Represents(s, v) && v.isPoint(p) && v.isPoint(q)
    ensures v.isPoint(out) && v.element(out) == s.add(v.element(p), v.element(q))
  {
    assert ReadsAt(v, p) && ReadsAt(v, q);
    out := PointAdd(p, q);
    SumIsRead(s, v, p, q, out, 4);
  }

  method Double<G(!new)>(p: Point, ghost s: Scheme<G>, ghost v: View<G>) returns (out: Point)
    requires Represents(s, v) && v.isPoint(p)
    ensures v.isPoint(out) && v.element(out) == s.add(v.element(p), v.element(p))
  {
    assert ReadsAt(v, p);
    out := PointDouble(p);
    SumIsRead(s, v, p, p, out, -1);
  }

  /** point_equal decides equality of group elements. */
  method SameElement<G(!new)>(p: Point, q: Point, ghost s: Scheme<G>, ghost v: View<G>) returns (equal: bool)
    requires Represents(s, v) && v.isPoint(p) && v.isPoint(q)
    ensures equal <==> v.element(p) == v.element(q)
  {
    assert ReadsAt(v, p) && ReadsAt(v, q);
    equal := PointEqual(p, q);
    assert EqualityAt(v, p.Values(), q.Values());
  }

  method IsZero<G(!new)>(p: Point, ghost s: Scheme<G>, ghost v: View<G>) returns (yes: bool)
    requires Represents(s, v) && v.isPoint(p)
    ensures yes <==> v.element(p) == s.zero
  {
    IdentityValid(s, v);
    assert ReadsAt(v, p) && ReadsAt(v, Identity);
    yes := PointIsIdentity(p);
    assert EqualityAt(v, p.Values(), Identity.Values());
  }

  /** p is a curve point that stands for [n]base. */
  ghost predicate IsMultiple<G>(s: Scheme<G>, v: View<G>, p: Point, n: nat, base: G) {
    v.isPoint(p) && v.element(p) == Times(s, n, base)
  }

  method AddMultiples<G(!new)>(p: Point, q: Point, ghost s: Scheme<G>, ghost v: View<G>,
                               ghost m: nat, ghost n: nat, ghost total: nat, ghost g: G) returns (out: Point)
    requires Represents(s, v) && IsMultiple(s, v, p, m, g) && IsMultiple(s, v, q, n, g) && total == m + n
    ensures IsMultiple(s, v, out, total, g)
  {
    out := Add(p, q, s, v);
    TimesAdd(s, m, n, g);
  }

  method DoubleMultiple<G(!new)>(p: Point, ghost s: Scheme<G>, ghost v: View<G>,
                                 ghost n: nat, ghost total: nat, ghost g: G) returns (out: Point)
    requires Represents(s, v) && IsMultiple(s, v, p, n, g) && total == n + n
    ensures IsMultiple(s, v, out, total, g)
  {
    out := Double(p, s, v);
    TimesAdd(s, n, n, g);
  }

  lemma OneTimes<G(!new)>(s: Scheme<G>, g: G)
    requires IsGroup(s)
    ensures Times(s, 0, g) == s.zero && Times(s, 1, g) == g
  {
    assert ZeroNeutral(s, g);
    assert Times(s, 1, g) == s.add(g, Times(s, 0, g));
  }

  ghost predicate IsTable<G>(s: Scheme<G>, v: View<G>, table: seq<Point>, n: nat, g: G) {
    n <= |table| && forall i :: 0 <= i < n ==> IsMultiple(s, v, table[i], i, g)
  }

  /** The identity and the fifteen small multiples of a point. */
  method SmallMultiples<G(!new)>(base: Point, ghost s: Scheme<G>, ghost v: View<G>) returns (table: seq<Point>)
    requires Represents(s, v) && v.isPoint(base)
    ensures |table| == 16 && IsTable(s, v, table, 16, v.element(base))
  {
    ghost var g := v.element(base);
    var buffer := new Point[16](_ => Identity);
    IdentityValid(s, v);
    OneTimes(s, g);
    buffer[1] := base;
    for i := 2 to 16
      invariant IsTable(s, v, buffer[..], i, g)
    {
      var next: Point;
      if i % 2 == 0 {
        assert IsMultiple(s, v, buffer[..][i / 2], i / 2, g);
        next := DoubleMultiple(buffer[i / 2], s, v, i / 2, i, g);
      } else {
        assert IsMultiple(s, v, buffer[..][i - 1], i - 1, g);
        next := AddMultiples(buffer[i - 1], base, s, v, i - 1, 1, i, g);
      }
      ghost var was := buffer[..];
      buffer[i] := next;
      assert buffer[..] == was[i := next];
    }
    table := buffer[..];
  }

  method DoubleFourTimes<G(!new)>(p: Point, ghost s: Scheme<G>, ghost v: View<G>, ghost n: nat, ghost g: G)
    returns (out: Point)
    requires Represents(s, v) && IsMultiple(s, v, p, n, g)
    ensures IsMultiple(s, v, out, 16 * n, g)
  {
    out := DoubleMultiple(p, s, v, n, 2 * n, g);
    out := DoubleMultiple(out, s, v, 2 * n, 4 * n, g);
    out := DoubleMultiple(out, s, v, 4 * n, 8 * n, g);
    out := DoubleMultiple(out, s, v, 8 * n, 16 * n, g);
  }

  method AddDigit<G(!new)>(p: Point, table: seq<Point>, digit: nat, ghost s: Scheme<G>, ghost v: View<G>,
                           ghost n: nat, ghost g: G) returns (out: Point)
    requires Represents(s, v) && |table| == 16 && IsTable(s, v, table, 16, g) && digit < 16
    requires IsMultiple(s, v, p, n, g)
    ensures IsMultiple(s, v, out, n + digit, g)
  {
    out := p;
    if digit != 0 {
      out := AddMultiples(p, table[digit], s, v, n, digit, n + digit, g);
    }
  }

  /** The left-to-right four bit window computes [scalar]base for every 256 bit scalar, and
      every point it goes through is on the curve. */
  method WindowMul<G(!new)>(scalar: Limbs8, table: seq<Point>, ghost s: Scheme<G>, ghost v: View<G>, ghost g: G)
    returns (result: Point)
    requires Represents(s, v) && |table| == 16 && IsTable(s, v, table, 16, g)
    ensures IsMultiple(s, v, result, Value(scalar), g)
  {
    hide Represents, IsTable, Scalars.WindowsFrom, Scalars.WindowDigit, Value, LeValue, Scalars.Encoded;
    var bytes := Scalars.ToBytes(scalar);
    result := Identity;
    IdentityValid(s, v);
    Scalars.AllWindows(scalar);
    var window := 64;
    while window > 0
      invariant 0 <= window <= 64
      invariant IsMultiple(s, v, result, Scalars.WindowsFrom(scalar, window), g)
    {
      window := window - 1;
      ghost var read := Scalars.WindowsFrom(scalar, window + 1);
      if window != 63 {
        result := DoubleFourTimes(result, s, v, read, g);
      }
      var digit := Scalars.WindowDigit(bytes, window);
      Scalars.WindowStep(scalar, window);
      result := AddDigit(result, table, digit, s, v, 16 * read, g);
    }
  }

  method ScalarMul<G(!new)>(scalar: Limbs8, base: Point, ghost s: Scheme<G>, ghost v: View<G>)
    returns (result: Point)
    requires Represents(s, v) && v.isPoint(base)
    ensures IsMultiple(s, v, result, Value(scalar), v.element(base))
  {
    var table := SmallMultiples(base, s, v);
    result := WindowMul(scalar, table, s, v, v.element(base));
  }

  // ---------------------------------------------------------------------------
  // Signing and verification
  // ---------------------------------------------------------------------------

  /** The calls into code outside this model: SHA-512, the point codec and the base point. */
  datatype Primitives = Primitives(
    sha512: Bytes -> Bytes,
    pointToBytes: Point -> Bytes,
    pointFromBytes: Bytes -> Option<Point>,
    basePoint: Point)

  ghost predicate EncodesAt<G>(prim: Primitives, s: Scheme<G>, v: View<G>, p: Point) {
    prim.pointToBytes(p) == s.encode(v.element(p))
  }

  ghost predicate DecodesAt<G>(prim: Primitives, s: Scheme<G>, v: View<G>, b: Bytes) {
    match prim.pointFromBytes(b)
    case None => s.decode(b).None?
    case Some(p) => v.isPoint(p) && s.decode(b) == Some(v.element(p))
  }

  ghost predicate HashesAt<G>(prim: Primitives, s: Scheme<G>, m: Bytes) {
    prim.sha512(m) == s.hash(m)
  }

  ghost predicate Implements<G(!new)>(prim: Primitives, s: Scheme<G>, v: View<G>) {
    && Lawful(s)
    && Represents(s, v)
    && (forall m :: HashesAt(prim, s, m))
    && (forall p | v.isPoint(p) :: EncodesAt(prim, s, v, p))
    && (forall b | |b| == 32 :: DecodesAt(prim, s, v, b))
    && v.isPoint(prim.basePoint) && v.element(prim.basePoint) == s.base
  }

  /** scalar_from_wide_hash */
  method ScalarFromWideHash(hash: Bytes) returns (out: Limbs8)
    requires |hash| == 64
    ensures Value(out) == Wide(hash) % Scalars.L
  {
    var buffer := new Word[16](_ => 0);
    for i := 0 to 16
      invariant forall k :: 0 <= k < i ==>
        buffer[k] == Scalars.LimbFromBytes(hash[4 * k], hash[4 * k + 1], hash[4 * k + 2], hash[4 * k + 3])
    {
      buffer[i] := Scalars.LimbFromBytes(hash[4 * i], hash[4 * i + 1], hash[4 * i + 2], hash[4 * i + 3]);
    }
    assert buffer[..] == WideLimbs(hash);
    out := Scalars.Reduce(buffer[..]);
  }

  /** Hashes and reduces: the nonce and the challenge of the two equations. */
  method HashToScalar<G(!new)>(prim: Primitives, message: Bytes, ghost s: Scheme<G>, ghost v: View<G>)
    returns (out: Limbs8)
    requires Implements(prim, s, v)
    ensures HashIs64(s, message) && Value(out) == Wide(s.hash(message)) % Scalars.L
  {
    assert HashIs64(s, message) && HashesAt(prim, s, message);
    out := ScalarFromWideHash(prim.sha512(message));
  }

  /** [scalar]B and its encoding. */
  method EncodedMultiple<G(!new)>(prim: Primitives, scalar: Limbs8, ghost s: Scheme<G>, ghost v: View<G>)
    returns (bytes: Bytes)
    requires Implements(prim, s, v)
    ensures bytes == s.encode(Times(s, Value(scalar), s.base)) && |bytes| == 32
  {
    var point := ScalarMul(scalar, prim.basePoint, s, v);
    assert EncodesAt(prim, s, v, point) && EncodesIn32(s, v.element(point));
    bytes := prim.pointToBytes(point);
  }

  /** expand_key */
  method ExpandKey<G(!new)>(prim: Primitives, seed: Bytes, ghost s: Scheme<G>, ghost v: View<G>)
    returns (scalar: Limbs8, prefix: Bytes, publicKey: Bytes)
    requires Implements(prim, s, v)
    ensures HashIs64(s, seed)
    ensures Value(scalar) == ScalarOf(s.hash(seed)[..32]) && prefix == s.hash(seed)[32..]
    ensures publicKey == PublicKey(s, seed) && |publicKey| == 32
  {
    assert HashIs64(s, seed) && HashesAt(prim, s, seed);
    var expanded := prim.sha512(seed);
    scalar := Scalars.FromBytes(Clamp(expanded[..32]));
    prefix := expanded[32..];
    publicKey := EncodedMultiple(prim, scalar, s, v);
  }

  /** k = SHA-512(R || A || message) mod L */
  method ChallengeScalar<G(!new)>(prim: Primitives, r: Bytes, key: Bytes, message: Bytes, ghost s: Scheme<G>, ghost v: View<G>)
    returns (out: Limbs8)
    requires Implements(prim, s, v)
    ensures Value(out) == Challenge(s, r, key, message) < Scalars.L
  {
    out := HashToScalar(prim, r + key + message, s, v);
  }

  /** S = r + k a mod L */
  method Response(k: Limbs8, a: Limbs8, r: Limbs8) returns (bytes: Bytes)
    requires Value(r) < Scalars.L
    ensures |bytes| == 32
    ensures Value(Scalars.Decoded(bytes)) == ((Value(k) * Value(a)) % Scalars.L + Value(r)) % Scalars.L
  {
    var product := Scalars.Mul(k, a);
    ghost var ka := (Value(k) * Value(a)) % Scalars.L;
    Scalars.RemainderBelow(Value(k) * Value(a));
    bytes := AddToBytes(product, r, ka);
  }

  method AddToBytes(x: Limbs8, y: Limbs8, ghost n: nat) returns (bytes: Bytes)
    requires Value(x) == n < Scalars.L && Value(y) < Scalars.L
    ensures |bytes| == 32 && Value(Scalars.Decoded(bytes)) == (n + Value(y)) % Scalars.L
  {
    var scalar := Scalars.Add(x, y);
    bytes := Scalars.ToBytesOf(scalar, (n + Value(y)) % Scalars.L);
  }

  /** r = SHA-512(prefix || message) mod L and the encoding of [r]B */
  method NoncePoint<G(!new)>(prim: Primitives, prefix: Bytes, message: Bytes, ghost seed: Bytes,
                             ghost s: Scheme<G>, ghost v: View<G>) returns (nonce: Limbs8, bytes: Bytes)
    requires Implements(prim, s, v) && HashIs64(s, seed) && prefix == s.hash(seed)[32..]
    ensures Value(nonce) == Nonce(s, seed, message) < Scalars.L
    ensures bytes == s.encode(Times(s, Nonce(s, seed, message), s.base)) && |bytes| == 32
  {
    nonce := HashToScalar(prim, prefix + message, s, v);
    bytes := EncodedMultiple(prim, nonce, s, v);
  }

  /** ed25519_sign */
  method Sign<G(!new)>(prim: Primitives, seed: Bytes, message: Bytes, ghost s: Scheme<G>, ghost v: View<G>)
    returns (sig: Bytes)
    requires Implements(prim, s, v)
    ensures IsSignature(s, seed, message, sig) && HashIs64(s, seed)
    ensures var a := SecretScalar(s.hash(seed)[..32]);
      var key := s.encode(Times(s, a, s.base));
      var r := LeValue(s.hash(s.hash(seed)[32..] + message));
      && sig[..32] == s.encode(Times(s, r % Scalars.L, s.base))
      && LeValue(sig[32..]) == (LeValue(s.hash(sig[..32] + key + message)) * a + r) % Scalars.L
  {
    hide Implements, Times, Nonce, Challenge, Value, Scalars.Decoded, ScalarOf, PublicKey, HashIs64;
    var secret, prefix, publicKey := ExpandKey(prim, seed, s, v);
    var nonce, nonceBytes := NoncePoint(prim, prefix, message, seed, s, v);
    var challenge := ChallengeScalar(prim, nonceBytes, publicKey, message, s, v);
    var scalarBytes := Response(challenge, secret, nonce);
    sig := nonceBytes + scalarBytes;
    assert sig[..32] == nonceBytes && sig[32..] == scalarBytes;
    ImplementsLaws(prim, s, v);
    SignatureSpelled(s, seed, message, sig);
  }

  lemma ImplementsLaws<G(!new)>(prim: Primitives, s: Scheme<G>, v: View<G>)
    requires Implements(prim, s, v)
    ensures Lawful(s)
  {
  }

  lemma SignatureSpelled<G(!new)>(s: Scheme<G>, seed: Bytes, message: Bytes, sig: Bytes)
    requires Lawful(s) && IsSignature(s, seed, message, sig)
    ensures HashIs64(s, seed)
    ensures var a := SecretScalar(s.hash(seed)[..32]);
      var key := s.encode(Times(s, a, s.base));
      var r := LeValue(s.hash(s.hash(seed)[32..] + message));
      && sig[..32] == s.encode(Times(s, r % Scalars.L, s.base))
      && LeValue(sig[32..]) == (LeValue(s.hash(sig[..32] + key + message)) * a + r) % Scalars.L
  {
    hide LeValue, Times, SecretScalar;
    assert HashIs64(s, seed);
    var a := SecretScalar(s.hash(seed)[..32]);
    SignatureIs(s, seed, message, sig, a, s.encode(Times(s, a, s.base)));
  }

  /** ed25519_verify */
  method Verify<G(!new)>(prim: Primitives, key: Bytes, message: Bytes, sig: Bytes,
                         ghost s: Scheme<G>, ghost v: View<G>) returns (accepted: bool)
    requires Implements(prim, s, v) && |key| == 32 && |sig| == 64
    ensures accepted <==> Verifies(s, key, message, sig)
    ensures accepted
       <==> && s.decode(key).Some? && s.decode(sig[..32]).Some? && LeValue(sig[32..]) < Scalars.L
            && Times(s, LeValue(sig[32..]), s.base)
               == s.add(s.decode(sig[..32]).value,
                        Times(s, LeValue(s.hash(sig[..32] + key + message)) % Scalars.L, s.decode(key).value))
  {
    VerifiesIs(s, key, message, sig);
    hide LeValue;
    var a := prim.pointFromBytes(key);
    assert DecodesAt(prim, s, v, key);
    if a.None? {
      return false;
    }
    var r := prim.pointFromBytes(sig[..32]);
    assert DecodesAt(prim, s, v, sig[..32]);
    if r.None? {
      return false;
    }
    var scalar := Scalars.FromBytes(sig[32..]);
    Scalars.OrderLimbs();
    var order := Scalars.Compare(scalar, Scalars.kL);
    if order >= 0 {
      return false;
    }
    var challenge := ChallengeScalar(prim, sig[..32], key, message, s, v);
    var left := ScalarMul(scalar, prim.basePoint, s, v);
    var ka := ScalarMul(challenge, a.value, s, v);
    var right := Add(r.value, ka, s, v);
    accepted := SameElement(left, right, s, v);
  }

  /** ed25519_verify_strict */
  method VerifyStrict<G(!new)>(prim: Primitives, key: Bytes, message: Bytes, sig: Bytes,
                               ghost s: Scheme<G>, ghost v: View<G>) returns (accepted: bool)
    requires Implements(prim, s, v) && |key| == 32 && |sig| == 64
    ensures accepted <==> VerifiesStrictly(s, key, message, sig)
    ensures accepted <==> s.decode(key).Some? && Times(s, 8, s.decode(key).value) != s.zero && Verifies(s, key, message, sig)
  {
    var a := prim.pointFromBytes(key);
    assert DecodesAt(prim, s, v, key);
    if a.None? {
      return false;
    }
    ghost var g := v.element(a.value);
    OneTimes(s, g);
    var eightA := DoubleMultiple(a.value, s, v, 1, 2, g);
    eightA := DoubleMultiple(eightA, s, v, 2, 4, g);
    eightA := DoubleMultiple(eightA, s, v, 4, 8, g);
    var small := IsZero(eightA, s, v);
    if small {
      return false;
    }
    accepted := Verify(prim, key, message, sig, s, v);
  }

  /** Signing and then verifying, for every seed and every message. */
  method SignThenVerify<G(!new)>(prim: Primitives, seed: Bytes, message: Bytes, ghost s: Scheme<G>, ghost v: View<G>)
    returns (accepted: bool, strictly: bool)
    requires Implements(prim, s, v)
    ensures accepted && strictly
  {
    var _, _, key := ExpandKey(prim, seed, s, v);
    var sig := Sign(prim, seed, message, s, v);
    HonestSignatureVerifies(s, seed, message, sig);
    accepted := Verify(prim, key, message, sig, s, v);
    strictly := VerifyStrict(prim, key, message, sig, s, v);
  }
}
