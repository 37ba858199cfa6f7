/** Contract bodies, their canonical form and identities, and the parent relation of scopes. */
module Contracts {
  import opened Ordering

  type Id = string
  type Digest = string

  datatype Kind =
    | MinBandwidth | MaxLatency | MaxJitter | MaxLoss | Locality | PathDiversity | FailureDomainSeparation
    | SecurityClass | TrafficPriority | BurstAllowance | Collective | CheckpointIsolation
    | DisaggregatedAffinity | MaintenanceTolerance | Attribute
  {
    /** The value of the enumerator, which the canonical order compares. */
    function Code(): nat {
      match this
      case MinBandwidth => 0
      case MaxLatency => 1
      case MaxJitter => 2
      case MaxLoss => 3
      case Locality => 4
      case PathDiversity => 5
      case FailureDomainSeparation => 6
      case SecurityClass => 7
      case TrafficPriority => 8
      case BurstAllowance => 9
      case Collective => 10
      case CheckpointIsolation => 11
      case DisaggregatedAffinity => 12
      case MaintenanceTolerance => 13
      case Attribute => 14
    }

    /** Larger is stronger. */
    predicate IsFloor() {
      MinBandwidth? || PathDiversity? || FailureDomainSeparation? || TrafficPriority? || BurstAllowance?
    }

    predicate IsNumeric() {
      IsFloor() || MaxLatency? || MaxJitter? || MaxLoss?
    }
  }

  datatype Strength = Informational | Preferred | Required {
    function Level(): nat {
      match this
      case Informational => 0
      case Preferred => 1
      case Required => 2
    }
  }

  datatype Key = Key(scope: string, kind: Kind, key: string)

  datatype Requirement = Requirement(
    id: Id,
    scope: string,
    kind: Kind,
    strength: Strength,
    hasNumeric: bool,
    target: real,
    minimum: real,
    value: string,
    preferredValue: string,
    members: seq<Id>,
    attributes: seq<(string, string)>,
    key: string)
  {
    function CompositeKey(): Key {
      Key(scope, kind, key)
    }

    /** The rule of body validation that ties numeric bounds to numeric kinds. */
    predicate WellFormed() {
      hasNumeric == kind.IsNumeric()
    }
  }

  datatype Scope = Scope(name: string, hasRank: bool, rank: nat, parent: string)

  datatype Workload = Workload(id: Id, name: string, generation: nat)

  datatype Body = Body(
    schemaVersion: nat,
    workload: Workload,
    contractId: Id,
    generation: nat,
    policyGeneration: nat,
    major: nat,
    minor: nat,
    patch: nat,
    description: string,
    scopes: seq<Scope>,
    requirements: seq<Requirement>)

  function Keys(requirements: seq<Requirement>): seq<Key> {
    seq(|requirements|, i requires 0 <= i < |requirements| => requirements[i].CompositeKey())
  }

  function KeySet(requirements: seq<Requirement>): set<Key> {
    set r | r in requirements :: r.CompositeKey()
  }

  ghost predicate DistinctKeys(requirements: seq<Requirement>) {
    forall i, j :: 0 <= i < j < |requirements| ==> requirements[i].CompositeKey() != requirements[j].CompositeKey()
  }

  ghost predicate DistinctScopes(scopes: seq<Scope>) {
    forall i, j :: 0 <= i < j < |scopes| ==> scopes[i].name != scopes[j].name
  }

  // ---------------------------------------------------------------------------
  // The canonical order
  // ---------------------------------------------------------------------------

  /** Scope name, then kind, then key, then identity. */
  predicate Precedes(a: Requirement, b: Requirement) {
    if a.scope != b.scope then TextLess(a.scope, b.scope)
    else if a.kind != b.kind then a.kind.Code() < b.kind.Code()
    else if a.key != b.key then TextLess(a.key, b.key)
    else TextLess(a.id, b.id)
  }

  predicate ScopePrecedes(a: Scope, b: Scope) {
    if a.name != b.name then TextLess(a.name, b.name) else a.rank < b.rank
  }

  predicate AttributePrecedes(a: (string, string), b: (string, string)) {
    TextLess(a.0, b.0)
  }

  lemma KindCodes(a: Kind, b: Kind)
    ensures a.Code() == b.Code() ==> a == b
  {
  }

  lemma PrecedesIsOrder()
    ensures StrictOrder(Precedes) && StrictOrder(ScopePrecedes) && StrictOrder(AttributePrecedes) && StrictOrder(TextLess)
  {
    forall x, y ensures AsymmetricAt(Precedes, x, y) { RequirementPair(x, y); }
    forall x, y, z ensures TransitiveAt(Precedes, x, y, z) { RequirementTriple(x, y, z); }
    forall x: Scope, y: Scope ensures AsymmetricAt(ScopePrecedes, x, y) { TextPair(x.name, y.name); }
    forall x: Scope, y: Scope, z: Scope ensures TransitiveAt(ScopePrecedes, x, y, z) {
      TextTriple(x.name, y.name, z.name);
      TextPair(x.name, y.name);
    }
    forall x: (string, string), y: (string, string) ensures AsymmetricAt(AttributePrecedes, x, y) { TextPair(x.0, y.0); }
    forall x: (string, string), y: (string, string), z: (string, string)
      ensures TransitiveAt(AttributePrecedes, x, y, z) { TextTriple(x.0, y.0, z.0); }
    forall x, y ensures AsymmetricAt(TextLess, x, y) { TextPair(x, y); }
    forall x, y, z ensures TransitiveAt(TextLess, x, y, z) { TextTriple(x, y, z); }
  }

  lemma TextPair(a: string, b: string)
    ensures TextLess(a, b) ==> !TextLess(b, a) && a != b
  {
    if TextLess(a, b) {
      TextAsymmetric(a, b);
    }
  }

  lemma TextTriple(a: string, b: string, c: string)
    ensures TextLess(a, b) && TextLess(b, c) ==> TextLess(a, c) && a != c
  {
    if TextLess(a, b) && TextLess(b, c) {
      TextTransitive(a, b, c);
      TextAsymmetric(a, c);
    }
  }

  lemma RequirementPair(x: Requirement, y: Requirement)
    ensures AsymmetricAt(Precedes, x, y)
  {
    hide TextLess;
    TextPair(x.scope, y.scope);
    TextPair(x.key, y.key);
    TextPair(x.id, y.id);
  }

  lemma RequirementTriple(x: Requirement, y: Requirement, z: Requirement)
    ensures TransitiveAt(Precedes, x, y, z)
  {
    hide TextLess;
    TextTriple(x.scope, y.scope, z.scope);
    TextTriple(x.key, y.key, z.key);
    TextTriple(x.id, y.id, z.id);
    KindCodes(x.kind, y.kind);
    KindCodes(y.kind, z.kind);
  }

  // ---------------------------------------------------------------------------
  // Identities and the canonical form
  // ---------------------------------------------------------------------------

  /** The derivations from content to identity; nothing here depends on what they compute. */
  datatype Identities = Identities(
    requirement: Requirement -> Id,
    body: Body -> Digest,
    contract: (Id, Digest) -> Id)

  datatype Envelope = Envelope(publisher: Id, algorithm: nat, keyId: string, signature: string, issuedMillis: nat)

  datatype Contract = Contract(body: Body, digest: Digest, envelope: Envelope, supersedes: nat, supersedesDigest: Digest)

  function NoId(): Id {
    seq(64, _ => '0')
  }

  /** A function of the content, never of the identity carried in. */
  function DeriveRequirementId(ids: Identities, r: Requirement): Id {
    ids.requirement(r.(id := NoId()))
  }

  /** Covers the body with the contract identity masked out. */
  function BodyDigest(ids: Identities, b: Body): Digest {
    ids.body(b.(contractId := NoId()))
  }

  function CanonicalRequirement(ids: Identities, r: Requirement): Requirement {
    var s := r.(attributes := Sort(AttributePrecedes, r.attributes), members := Sort(TextLess, r.members));
    s.(id := DeriveRequirementId(ids, s))
  }

  function CanonicalRequirements(ids: Identities, rs: seq<Requirement>): (out: seq<Requirement>)
    ensures |out| == |rs|
  {
    if rs == [] then [] else [CanonicalRequirement(ids, rs[0])] + CanonicalRequirements(ids, rs[1..])
  }

  function CanonicalBody(ids: Identities, b: Body): Body {
    var c := b.(scopes := Sort(ScopePrecedes, b.scopes),
                requirements := Sort(Precedes, CanonicalRequirements(ids, b.requirements)));
    c.(contractId := ids.contract(c.workload.id, BodyDigest(ids, c)))
  }

  function Canonical(ids: Identities, c: Contract): Contract {
    var body := CanonicalBody(ids, c.body);
    c.(body := body, digest := BodyDigest(ids, body))
  }

  /** Sorts the parts of every requirement and derives its identity anew. */
  method CanonicalizeEach(ids: Identities, requirements: seq<Requirement>) returns (out: seq<Requirement>)
    ensures out == CanonicalRequirements(ids, requirements)
  {
    hide Sort, CanonicalRequirements, DeriveRequirementId;
    out := requirements;
    for i := 0 to |out|
      invariant |out| == |requirements|
      invariant forall k :: 0 <= k < i ==> out[k] == CanonicalRequirement(ids, requirements[k])
      invariant forall k :: i <= k < |out| ==> out[k] == requirements[k]
    {
      var q := out[i];
      q := q.(attributes := Sort(AttributePrecedes, q.attributes));
      q := q.(members := Sort(TextLess, q.members));
      q := q.(id := DeriveRequirementId(ids, q));
      out := out[i := q];
    }
    forall k | 0 <= k < |out|
      ensures CanonicalRequirements(ids, requirements)[k] == CanonicalRequirement(ids, requirements[k])
    {
      CanonicalAt(ids, requirements, k);
    }
  }

  method Canonicalize(ids: Identities, contract: Contract) returns (r: Contract)
    ensures r == Canonical(ids, contract)
  {
    hide Sort, CanonicalRequirements;
    var body := contract.body.(scopes := Sort(ScopePrecedes, contract.body.scopes));
    var each := CanonicalizeEach(ids, body.requirements);
    body := body.(requirements := Sort(Precedes, each));
    r := contract.(digest := BodyDigest(ids, body));
    body := body.(contractId := ids.contract(body.workload.id, r.digest));
    r := r.(body := body, digest := BodyDigest(ids, body));
  }

  // ---------------------------------------------------------------------------
  // One canonical form for every order of the parts
  // ---------------------------------------------------------------------------

  /** The same requirement up to the order of its members and attributes, whatever identities they carry. */
  ghost predicate Alike(a: Requirement, b: Requirement) {
    && a == b.(id := a.id, members := a.members, attributes := a.attributes)
    && multiset(a.members) == multiset(b.members)
    && multiset(a.attributes) == multiset(b.attributes)
  }

  ghost predicate DistinctNames(attributes: seq<(string, string)>) {
    forall i, j :: 0 <= i < j < |attributes| ==> attributes[i].0 != attributes[j].0
  }

  /** What validation demands of the names in a body. */
  ghost predicate DistinctParts(b: Body) {
    && DistinctScopes(b.scopes)
    && DistinctKeys(b.requirements)
    && (forall r :: r in b.requirements ==> DistinctNames(r.attributes))
  }

  /** q is p with scopes and requirements in another order; aligned lists the requirements of q in the
      order of p, each alike up to the order of its own parts. */
  ghost predicate Rearranged(p: Body, q: Body, aligned: seq<Requirement>) {
    && p == q.(contractId := p.contractId, scopes := p.scopes, requirements := p.requirements)
    && multiset(p.scopes) == multiset(q.scopes)
    && |aligned| == |p.requirements|
    && (forall i :: 0 <= i < |aligned| ==> Alike(p.requirements[i], aligned[i]))
    && multiset(aligned) == multiset(q.requirements)
  }

  lemma AttributeTies(attributes: seq<(string, string)>)
    requires DistinctNames(attributes)
    ensures TiesEqual(AttributePrecedes, attributes)
  {
    forall i, j | 0 <= i < |attributes| && 0 <= j < |attributes|
      ensures TieAt(AttributePrecedes, attributes[i], attributes[j])
    {
      TextTotal(attributes[i].0, attributes[j].0);
    }
  }

  lemma TextTies(s: seq<string>)
    ensures TiesEqual(TextLess, s)
  {
    forall i, j | 0 <= i < |s| && 0 <= j < |s|
      ensures TieAt(TextLess, s[i], s[j])
    {
      TextTotal(s[i], s[j]);
    }
  }

  lemma ScopeTies(scopes: seq<Scope>)
    requires DistinctScopes(scopes)
    ensures TiesEqual(ScopePrecedes, scopes)
  {
    forall i, j | 0 <= i < |scopes| && 0 <= j < |scopes|
      ensures TieAt(ScopePrecedes, scopes[i], scopes[j])
    {
      TextTotal(scopes[i].name, scopes[j].name);
    }
  }

  lemma RequirementTies(rs: seq<Requirement>)
    requires DistinctKeys(rs)
    ensures TiesEqual(Precedes, rs)
  {
    hide TextLess;
    forall i, j | 0 <= i < |rs| && 0 <= j < |rs|
      ensures TieAt(Precedes, rs[i], rs[j])
    {
      TextTotal(rs[i].scope, rs[j].scope);
      TextTotal(rs[i].key, rs[j].key);
      KindCodes(rs[i].kind, rs[j].kind);
      if rs[i].CompositeKey() == rs[j].CompositeKey() {
        assert i == j;
      }
    }
  }

  lemma AlikeCanonical(ids: Identities, a: Requirement, b: Requirement)
    requires Alike(a, b) && DistinctNames(a.attributes)
    ensures CanonicalRequirement(ids, a) == CanonicalRequirement(ids, b)
  {
    PrecedesIsOrder();
    AttributeTies(a.attributes);
    TextTies(a.members);
    SortCanonical(AttributePrecedes, a.attributes, b.attributes);
    SortCanonical(TextLess, a.members, b.members);
  }

  lemma {:induction false} AlikeList(ids: Identities, s: seq<Requirement>, t: seq<Requirement>)
    requires |s| == |t| && forall i :: 0 <= i < |s| ==> Alike(s[i], t[i]) && DistinctNames(s[i].attributes)
    ensures CanonicalRequirements(ids, s) == CanonicalRequirements(ids, t)
  {
    if s != [] {
      hide Alike, DistinctNames, CanonicalRequirement;
      AlikeCanonical(ids, s[0], t[0]);
      AlikeList(ids, s[1..], t[1..]);
    }
  }

  lemma {:induction false} CanonicalAppend(ids: Identities, s: seq<Requirement>, t: seq<Requirement>)
    ensures CanonicalRequirements(ids, s + t) == CanonicalRequirements(ids, s) + CanonicalRequirements(ids, t)
    decreases |s|
  {
    hide CanonicalRequirement;
    if s == [] {
      assert s + t == t;
    } else {
      assert (s + t)[0] == s[0] && (s + t)[1..] == s[1..] + t;
      CanonicalAppend(ids, s[1..], t);
    }
  }

  /** Canonicalising each element commutes with permuting the list. */
  lemma {:induction false} CanonicalPermutes(ids: Identities, s: seq<Requirement>, t: seq<Requirement>)
    requires multiset(s) == multiset(t)
    ensures multiset(CanonicalRequirements(ids, s)) == multiset(CanonicalRequirements(ids, t))
    decreases |s|
  {
    SamePermutation(s, t);
    if s != [] {
      hide *;
      assert s[0] in t;
      var k :| 0 <= k < |t| && t[k] == s[0];
      Without(s, t, k);
      CanonicalPermutes(ids, s[1..], t[..k] + t[k + 1..]);
      PulledOut(ids, t, k);
      CanonicalAppend(ids, [s[0]], s[1..]);
      CanonicalOne(ids, s[0]);
      assert s == [s[0]] + s[1..];
    }
  }

  lemma CanonicalOne(ids: Identities, r: Requirement)
    ensures CanonicalRequirements(ids, [r]) == [CanonicalRequirement(ids, r)]
  {
    hide CanonicalRequirement;
    assert [r][1..] == [];
  }

  lemma PulledOut(ids: Identities, t: seq<Requirement>, k: nat)
    requires k < |t|
    ensures multiset(CanonicalRequirements(ids, t))
         == multiset{CanonicalRequirement(ids, t[k])} + multiset(CanonicalRequirements(ids, t[..k] + t[k + 1..]))
  {
    hide *;
    CanonicalAppend(ids, t[..k], t[k + 1..]);
    CanonicalAppend(ids, t[..k], [t[k]] + t[k + 1..]);
    CanonicalAppend(ids, [t[k]], t[k + 1..]);
    CanonicalOne(ids, t[k]);
    assert t == t[..k] + ([t[k]] + t[k + 1..]);
  }

  lemma Without<T>(s: seq<T>, t: seq<T>, k: nat)
    requires s != [] && k < |t| && t[k] == s[0] && multiset(s) == multiset(t)
    ensures multiset(s[1..]) == multiset(t[..k] + t[k + 1..])
  {
    assert s == [s[0]] + s[1..];
    assert t == t[..k] + [t[k]] + t[k + 1..];
    assert multiset(s[1..]) == multiset(s) - multiset{s[0]};
    assert multiset(t[..k] + t[k + 1..]) == multiset(t) - multiset{t[k]};
  }

  lemma {:induction false} CanonicalAt(ids: Identities, s: seq<Requirement>, i: nat)
    requires i < |s|
    ensures CanonicalRequirements(ids, s)[i] == CanonicalRequirement(ids, s[i])
  {
    hide CanonicalRequirement;
    if i > 0 {
      CanonicalAt(ids, s[1..], i - 1);
    }
  }

  lemma CanonicalKeys(ids: Identities, s: seq<Requirement>)
    requires DistinctKeys(s)
    ensures DistinctKeys(CanonicalRequirements(ids, s))
  {
    var t := CanonicalRequirements(ids, s);
    forall i, j | 0 <= i < j < |t|
      ensures t[i].CompositeKey() != t[j].CompositeKey()
    {
      CanonicalAt(ids, s, i);
      CanonicalAt(ids, s, j);
    }
  }

  lemma Occurrences<T>(t: seq<T>, i: nat, j: nat)
    requires i < j < |t| && t[i] == t[j]
    ensures multiset(t)[t[i]] >= 2
  {
    assert t == t[..j] + t[j..];
    assert t[i] in t[..j] && t[j..][0] == t[i];
    assert t[i] in multiset(t[..j]) && t[i] in multiset(t[j..]);
  }

  lemma OccursOnce(s: seq<Requirement>, x: Requirement)
    requires DistinctKeys(s) && x in s
    ensures multiset(s)[x] == 1
  {
    var k :| 0 <= k < |s| && s[k] == x;
    assert s == s[..k] + [x] + s[k + 1..];
    assert x !in s[..k] && x !in s[k + 1..];
  }

  lemma DistinctPermute(s: seq<Requirement>, t: seq<Requirement>)
    requires DistinctKeys(s) && multiset(s) == multiset(t)
    ensures DistinctKeys(t) && KeySet(t) == KeySet(s)
  {
    SamePermutation(s, t);
    forall i, j | 0 <= i < j < |t|
      ensures t[i].CompositeKey() != t[j].CompositeKey()
    {
      if t[i].CompositeKey() == t[j].CompositeKey() {
        assert t[i] in s && t[j] in s;
        assert t[i] == t[j];
        Occurrences(t, i, j);
        OccursOnce(s, t[i]);
        assert false;
      }
    }
  }

  lemma DistinctScopesPermute(s: seq<Scope>, t: seq<Scope>)
    requires DistinctScopes(s) && multiset(s) == multiset(t)
    ensures DistinctScopes(t)
  {
    SamePermutation(s, t);
    forall i, j | 0 <= i < j < |t|
      ensures t[i].name != t[j].name
    {
      if t[i].name == t[j].name {
        assert t[i] in s && t[j] in s;
        assert t[i] == t[j];
        Occurrences(t, i, j);
        ScopeOnce(s, t[i]);
        assert false;
      }
    }
  }

  lemma ScopeOnce(s: seq<Scope>, x: Scope)
    requires DistinctScopes(s) && x in s
    ensures multiset(s)[x] == 1
  {
    var k :| 0 <= k < |s| && s[k] == x;
    assert s == s[..k] + [x] + s[k + 1..];
    assert x !in s[..k] && x !in s[k + 1..];
  }

  /** The canonical body says what the body said: the same scopes and requirements in another order, each alike up to the
      order of its parts, and everything else as it was but the identities. */
  lemma CanonicalContent(ids: Identities, b: Body)
    ensures Rearranged(b, CanonicalBody(ids, b), CanonicalRequirements(ids, b.requirements))
  {
    var aligned := CanonicalRequirements(ids, b.requirements);
    SortPermutes(ScopePrecedes, b.scopes);
    SortPermutes(Precedes, aligned);
    forall i | 0 <= i < |aligned|
      ensures Alike(b.requirements[i], aligned[i])
    {
      CanonicalAt(ids, b.requirements, i);
      SortPermutes(AttributePrecedes, b.requirements[i].attributes);
      SortPermutes(TextLess, b.requirements[i].members);
    }
  }

  /** The canonical order, said without the order that sorts: requirements by scope, then by kind, then by key, scopes by
      name, each name byte by byte. */
  lemma CanonicalOrder(ids: Identities, b: Body)
    requires DistinctParts(b)
    ensures var rs := CanonicalBody(ids, b).requirements; forall i, j :: 0 <= i < j < |rs| ==> KeyPrecedes(rs[i], rs[j])
    ensures var ss := CanonicalBody(ids, b).scopes; forall i, j :: 0 <= i < j < |ss| ==> Lexicographic(ss[i].name, ss[j].name)
  {
    hide Sort, CanonicalRequirements, CanonicalRequirement, TextLess, Lexicographic, DistinctNames, DistinctKeys;
    var each := CanonicalRequirements(ids, b.requirements);
    var rs, ss := Sort(Precedes, each), Sort(ScopePrecedes, b.scopes);
    PrecedesIsOrder();
    CanonicalKeys(ids, b.requirements);
    RequirementTies(each);
    SortSorts(Precedes, each);
    SortPermutes(Precedes, each);
    DistinctPermute(each, rs);
    ScopeTies(b.scopes);
    SortSorts(ScopePrecedes, b.scopes);
    SortPermutes(ScopePrecedes, b.scopes);
    DistinctScopesPermute(b.scopes, ss);
    forall i, j | 0 <= i < j < |rs|
      ensures KeyPrecedes(rs[i], rs[j])
    {
      KeyOrder(rs, i, j);
    }
    forall i, j | 0 <= i < j < |ss|
      ensures Lexicographic(ss[i].name, ss[j].name)
    {
      TextTotal(ss[i].name, ss[j].name);
      TextLessIs(ss[i].name, ss[j].name);
    }
  }

  ghost predicate KeyPrecedes(a: Requirement, b: Requirement) {
    || Lexicographic(a.scope, b.scope)
    || (a.scope == b.scope && a.kind.Code() < b.kind.Code())
    || (a.scope == b.scope && a.kind == b.kind && Lexicographic(a.key, b.key))
  }

  lemma KeyOrder(rs: seq<Requirement>, i: nat, j: nat)
    requires i < j < |rs| && DistinctKeys(rs) && !Precedes(rs[j], rs[i])
    ensures KeyPrecedes(rs[i], rs[j])
  {
    hide TextLess, Lexicographic;
    var p, q := rs[i], rs[j];
    assert p.CompositeKey() != q.CompositeKey();
    TextTotal(p.scope, q.scope);
    TextTotal(p.key, q.key);
    TextLessIs(p.scope, q.scope);
    TextLessIs(p.key, q.key);
    KindCodes(p.kind, q.kind);
  }

  /** Bodies that differ only in the order of scopes, requirements, members and attributes, and in the
      identities they carry, have the same canonical body, identity and digest. */
  lemma CanonicalOrderFree(ids: Identities, p: Body, q: Body, aligned: seq<Requirement>)
    requires DistinctParts(p) && Rearranged(p, q, aligned)
    ensures CanonicalBody(ids, p) == CanonicalBody(ids, q)
    ensures BodyDigest(ids, CanonicalBody(ids, p)) == BodyDigest(ids, CanonicalBody(ids, q))
  {
    hide Alike, DistinctNames, CanonicalRequirement;
    PrecedesIsOrder();
    ScopeTies(p.scopes);
    SortCanonical(ScopePrecedes, p.scopes, q.scopes);
    AlikeList(ids, p.requirements, aligned);
    CanonicalPermutes(ids, aligned, q.requirements);
    CanonicalKeys(ids, p.requirements);
    RequirementTies(CanonicalRequirements(ids, p.requirements));
    SortCanonical(Precedes, CanonicalRequirements(ids, p.requirements), CanonicalRequirements(ids, q.requirements));
  }

  /** Canonicalising a canonical contract changes nothing, and its digest and identity are the ones that
      validation derives again. */
  lemma CanonicalIdempotent(ids: Identities, c: Contract)
    requires DistinctParts(c.body)
    ensures Canonical(ids, Canonical(ids, c)) == Canonical(ids, c)
    ensures var r := Canonical(ids, c);
      r.digest == BodyDigest(ids, r.body) && r.body.contractId == ids.contract(r.body.workload.id, r.digest)
  {
    var p, q := c.body, CanonicalBody(ids, c.body);
    var aligned := CanonicalRequirements(ids, p.requirements);
    CanonicalContent(ids, p);
    CanonicalOrderFree(ids, p, q, aligned);
  }
}

/** The parent relation of scopes and the bounded walk that looks for cycles in it. */
module ScopeTree {
  import opened Contracts

  type Parents = map<string, string>

  /** The declared names and their parents; a repeated name keeps its first declaration. */
  function ParentsOf(scopes: seq<Scope>): (m: Parents)
    ensures |m| <= |scopes|
    ensures "" !in m
  {
    if scopes == [] then map[]
    else
      var m := ParentsOf(scopes[..|scopes| - 1]);
      var s := scopes[|scopes| - 1];
      if s.name == "" || s.name in m then m else m[s.name := s.parent]
  }

  /** The k-th name on the chain from a name; the chain stays where it ends. */
  function Ancestor(m: Parents, name: string, k: nat): string {
    if k == 0 then name
    else
      var before := Ancestor(m, name, k - 1);
      if before in m then m[before] else before
  }

  /** The chain does not end within k steps. */
  ghost predicate Alive(m: Parents, name: string, k: nat) {
    forall i: nat :: i < k ==> Ancestor(m, name, i) in m
  }

  /** The chain never reaches a root or an undeclared name. */
  ghost predicate Endless(m: Parents, name: string) {
    forall i: nat :: Ancestor(m, name, i) in m
  }

  lemma {:induction false} AncestorAdd(m: Parents, name: string, i: nat, j: nat)
    ensures Ancestor(m, Ancestor(m, name, i), j) == Ancestor(m, name, i + j)
    decreases j
  {
    if j > 0 {
      AncestorAdd(m, name, i, j - 1);
    }
  }

  /** More names than the set holds: some name occurs twice. */
  lemma {:induction false} Pigeonhole(names: seq<string>, holes: set<string>) returns (i: nat, j: nat)
    requires |names| > |holes| && forall k :: 0 <= k < |names| ==> names[k] in holes
    ensures i < j < |names| && names[i] == names[j]
    decreases |holes|
  {
    var last := names[|names| - 1];
    if k :| 0 <= k < |names| - 1 && names[k] == last {
      return k, |names| - 1;
    }
    i, j := Pigeonhole(names[..|names| - 1], holes - {last});
  }

  /** A chain that revisits a name goes round forever. */
  lemma {:induction false} Loops(m: Parents, name: string, i: nat, j: nat, k: nat)
    requires i < j && Ancestor(m, name, i) == Ancestor(m, name, j) && Alive(m, name, j)
    ensures Ancestor(m, name, k) in m
    decreases k
  {
    if k >= j {
      AncestorAdd(m, name, i, k - j);
      AncestorAdd(m, name, j, k - j);
      Loops(m, name, i, j, k - (j - i));
    }
  }

  /** A chain that survives more steps than there are declared names never ends. */
  lemma LongIsEndless(m: Parents, name: string, n: nat)
    requires |m| <= n && Alive(m, name, n + 1)
    ensures Endless(m, name)
  {
    var names := seq(n + 1, k requires 0 <= k < n + 1 => Ancestor(m, name, k));
    var i, j := Pigeonhole(names, m.Keys);
    forall k: nat
      ensures Ancestor(m, name, k) in m
    {
      Loops(m, name, i, j, k);
    }
  }

  method Declared(scopes: seq<Scope>) returns (m: Parents)
    ensures m == ParentsOf(scopes)
  {
    m := map[];
    for i := 0 to |scopes|
      invariant m == ParentsOf(scopes[..i])
    {
      assert scopes[..i + 1][..i] == scopes[..i];
      if scopes[i].name != "" && scopes[i].name !in m {
        m := m[scopes[i].name := scopes[i].parent];
      }
    }
    assert scopes[..|scopes|] == scopes;
  }

  /** Follows one chain for at most one step more than there are scopes. */
  method Follow(m: Parents, start: string, bound: nat) returns (steps: nat)
    requires |m| <= bound && "" !in m
    ensures steps > bound <==> Endless(m, start)
    ensures !Endless(m, start) ==> Ancestor(m, start, steps) !in m
  {
    var current := start;
    steps := 0;
    while current != "" && steps <= bound
      invariant steps <= bound + 1
      invariant current == Ancestor(m, start, steps) && Alive(m, start, steps)
      decreases bound + 1 - steps
    {
      if current !in m {
        break;
      }
      current := m[current];
      steps := steps + 1;
    }
    if steps > bound {
      LongIsEndless(m, start, bound);
    }
  }

  /** The walk over all scopes reports a cycle exactly when some scope's chain never reaches a root or an
      undeclared name. */
  method ReportsCycle(scopes: seq<Scope>) returns (cycle: bool)
    ensures cycle <==> exists i :: 0 <= i < |scopes| && Endless(ParentsOf(scopes), scopes[i].name)
  {
    var m := Declared(scopes);
    cycle := false;
    for i := 0 to |scopes|
      invariant !cycle && forall k :: 0 <= k < i ==> !Endless(m, scopes[k].name)
    {
      var steps := Follow(m, scopes[i].name, |scopes|);
      if steps > |scopes| {
        return true;
      }
    }
  }

  /** In a body that passes, every chain ends within as many steps as there are scopes. */
  lemma ChainsEnd(scopes: seq<Scope>, name: string)
    requires !Endless(ParentsOf(scopes), name)
    ensures exists k: nat :: k <= |scopes| && Ancestor(ParentsOf(scopes), name, k) !in ParentsOf(scopes)
  {
    var m := ParentsOf(scopes);
    if forall k: nat :: k <= |scopes| ==> Ancestor(m, name, k) in m {
      LongIsEndless(m, name, |scopes|);
    }
  }
}
