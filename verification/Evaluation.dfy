/** Deciding requirements against evidence: what a contract means. */
module Evaluation {
  import opened Options
  import opened Ordering
  import opened Contracts

  datatype Satisfaction = Satisfied | Unsatisfied | Unknown | NotApplicable

  datatype Freshness = Current | Stale | Expired | RevalidationRequired

  datatype Candidate = Candidate(
    minBandwidth: Option<real>,
    maxLatency: Option<real>,
    maxJitter: Option<real>,
    maxLoss: Option<real>,
    locality: Option<string>,
    pathDiversity: Option<real>,
    failureDomainSeparation: Option<real>,
    securityClass: Option<string>,
    trafficPriority: Option<real>,
    burstAllowance: Option<real>,
    collectiveSupported: Option<bool>,
    checkpointIsolation: Option<bool>,
    disaggregatedAffinity: Option<string>,
    maintenanceTolerance: Option<string>,
    attributes: seq<(string, string)>)

  datatype Entry = Entry(
    scope: string,
    id: Id,
    publisher: Id,
    generation: nat,
    capturedBy: Id,
    epoch: nat,
    producedAt: nat,
    candidate: Candidate,
    freshness: Freshness)

  datatype EvidenceSet = EvidenceSet(
    evidenceId: Id, generation: nat, epoch: nat, publisher: Id, producedAt: nat, entries: seq<Entry>)

  datatype Reason = Ok | NoEvidence | NeedsRevalidation | EvidenceExpired | EvidenceStale | MissingDimension

  datatype Decision = Decision(satisfaction: Satisfaction, reason: Reason)

  /** The first entry for a scope. */
  function Find(entries: seq<Entry>, scope: string): (e: Option<Entry>)
    ensures e.Some? ==> e.value in entries && e.value.scope == scope
    ensures e.None? ==> forall x :: x in entries ==> x.scope != scope
  {
    if entries == [] then None
    else if entries[0].scope == scope then Some(entries[0])
    else Find(entries[1..], scope)
  }

  /** The value of the first attribute with a name. */
  function AttributeOf(attributes: seq<(string, string)>, name: string): Option<string> {
    if attributes == [] then None
    else if attributes[0].0 == name then Some(attributes[0].1)
    else AttributeOf(attributes[1..], name)
  }

  // ---------------------------------------------------------------------------
  // One requirement
  // ---------------------------------------------------------------------------

  const MISSING: Decision := Decision(Unknown, MissingDimension)

  function Verdict(satisfied: bool): Decision {
    Decision(if satisfied then Satisfied else Unsatisfied, Ok)
  }

  /** At or below the strict bound, or for a preference at or below the weakest bound. */
  function Ceiling(observed: Option<real>, r: Requirement): Decision {
    if observed.None? then MISSING
    else if observed.value <= r.target then Verdict(true)
    else if observed.value <= r.minimum then Verdict(r.strength.Preferred?)
    else Verdict(false)
  }

  function FloorValue(observed: Option<real>, r: Requirement): Decision {
    if observed.None? then MISSING
    else if observed.value >= r.target then Verdict(true)
    else if observed.value >= r.minimum then Verdict(r.strength.Preferred?)
    else Verdict(false)
  }

  function Textual(observed: Option<string>, r: Requirement): Decision {
    if observed.None? || observed.value == "" then MISSING
    else if observed.value == r.value then Verdict(true)
    else Verdict(!r.strength.Required? && r.preferredValue != "" && observed.value == r.preferredValue)
  }

  function MemberName(member: Id): string {
    "member." + member
  }

  /** How many members the evidence reports as present, and whether it is silent about one. */
  function Matched(c: Candidate, members: seq<Id>): (n: nat)
    ensures n <= |members|
  {
    if members == [] then 0
    else Matched(c, members[..|members| - 1])
         + (if AttributeOf(c.attributes, MemberName(members[|members| - 1])) == Some("present") then 1 else 0)
  }

  predicate MemberMissing(c: Candidate, members: seq<Id>) {
    exists m :: m in members && AttributeOf(c.attributes, MemberName(m)).None?
  }

  method CountMembers(c: Candidate, members: seq<Id>) returns (matched: nat, missing: bool)
    ensures matched == Matched(c, members) && missing == MemberMissing(c, members)
  {
    matched, missing := 0, false;
    for i := 0 to |members|
      invariant matched == Matched(c, members[..i]) && missing == MemberMissing(c, members[..i])
    {
      assert members[..i + 1] == members[..i] + [members[i]];
      assert members[..i + 1][..i] == members[..i];
      var present := AttributeOf(c.attributes, MemberName(members[i]));
      if present.None? {
        missing := true;
      } else if present.value == "present" {
        matched := matched + 1;
      }
    }
    assert members[..|members|] == members;
  }

  function CollectiveVerdict(c: Candidate, r: Requirement): Decision {
    if c.collectiveSupported.None? then MISSING
    else if r.value == "unsupported" then Verdict(!c.collectiveSupported.value)
    else if !c.collectiveSupported.value then Verdict(false)
    else if r.members == [] then Verdict(true)
    else if Matched(c, r.members) == |r.members| then Verdict(true)
    else if MemberMissing(c, r.members) then MISSING
    else Verdict(false)
  }

  function DecideCandidate(r: Requirement, c: Candidate): Decision {
    match r.kind
    case MinBandwidth => FloorValue(c.minBandwidth, r)
    case MaxLatency => Ceiling(c.maxLatency, r)
    case MaxJitter => Ceiling(c.maxJitter, r)
    case MaxLoss => Ceiling(c.maxLoss, r)
    case PathDiversity => FloorValue(c.pathDiversity, r)
    case FailureDomainSeparation => FloorValue(c.failureDomainSeparation, r)
    case TrafficPriority => FloorValue(c.trafficPriority, r)
    case BurstAllowance => FloorValue(c.burstAllowance, r)
    case Locality => Textual(c.locality, r)
    case SecurityClass => Textual(c.securityClass, r)
    case DisaggregatedAffinity => Textual(c.disaggregatedAffinity, r)
    case MaintenanceTolerance => Textual(c.maintenanceTolerance, r)
    case CheckpointIsolation =>
      if c.checkpointIsolation.None? then MISSING
      else Verdict((r.value != "none" && r.value != "") == c.checkpointIsolation.value)
    case Collective => CollectiveVerdict(c, r)
    case Attribute =>
      var value := AttributeOf(c.attributes, r.key);
      if value.None? then MISSING else Verdict(value.value == r.value)
  }

  /** The order of the checks: strength, presence, capturing incarnation, freshness, then the kind's rule. */
  function Decide(r: Requirement, entry: Option<Entry>, current: Id): Decision {
    if r.strength.Informational? then Decision(NotApplicable, Ok)
    else if entry.None? then Decision(Unknown, NoEvidence)
    else if entry.value.capturedBy != current then Decision(Unknown, NeedsRevalidation)
    else match entry.value.freshness
      case RevalidationRequired => Decision(Unknown, NeedsRevalidation)
      case Expired => Decision(Unknown, EvidenceExpired)
      case Stale => Decision(Unknown, EvidenceStale)
      case Current => DecideCandidate(r, entry.value.candidate)
  }

  predicate Satisfies(r: Requirement, entry: Option<Entry>, current: Id) {
    Decide(r, entry, current).satisfaction == Satisfied
  }

  /** Only current evidence captured by the running incarnation can satisfy anything. */
  lemma SatisfiedNeedsCurrent(r: Requirement, entry: Option<Entry>, current: Id)
    requires Satisfies(r, entry, current)
    ensures entry.Some? && entry.value.capturedBy == current && entry.value.freshness == Current
    ensures !r.strength.Informational?
  {
  }

  /** A collective requirement over a supporting scope: satisfied exactly when every member is reported present. */
  lemma {:induction false} AllMatched(c: Candidate, members: seq<Id>)
    ensures Matched(c, members) == |members|
       <==> forall m :: m in members ==> AttributeOf(c.attributes, MemberName(m)) == Some("present")
  {
    if members != [] {
      hide AttributeOf, MemberName;
      var last := |members| - 1;
      AllMatched(c, members[..last]);
      assert members == members[..last] + [members[last]];
    }
  }

  // ---------------------------------------------------------------------------
  // Stronger requirements
  // ---------------------------------------------------------------------------

  /** b's bounds are nowhere weaker than a's, in the direction of the kind. */
  predicate BoundsHold(a: Requirement, b: Requirement) {
    if a.kind.IsFloor() then b.target >= a.target && b.minimum >= a.minimum
    else b.target <= a.target && b.minimum <= a.minimum
  }

  /** b takes the place of the REQUIRED a without weakening it. */
  predicate NoWeaker(a: Requirement, b: Requirement) {
    && b.CompositeKey() == a.CompositeKey()
    && b.strength.Required?
    && b.hasNumeric == a.hasNumeric
    && if a.hasNumeric then BoundsHold(a, b) else b.value == a.value
  }

  lemma NoWeakerTransitive(a: Requirement, b: Requirement, c: Requirement)
    requires NoWeaker(a, b) && NoWeaker(b, c)
    ensures NoWeaker(a, c)
  {
  }

  /** The syntactic order respects the meaning: whatever satisfies the stronger requirement satisfies the
      weaker one. Collective requirements are excluded, because their members are compared nowhere. */
  lemma NoWeakerIsSound(a: Requirement, b: Requirement, entry: Option<Entry>, current: Id)
    requires a.strength.Required? && a.WellFormed() && !a.kind.Collective?
    requires NoWeaker(a, b) && Satisfies(b, entry, current)
    ensures Satisfies(a, entry, current)
  {
    hide AttributeOf, CollectiveVerdict;
  }

  const NOTHING: Candidate :=
    Candidate(None, None, None, None, None, None, None, None, None, None, None, None, None, None, [])

  /** Evidence that supplies one numeric dimension and nothing else. */
  function Supplying(kind: Kind, x: real): Candidate {
    match kind
    case MinBandwidth => NOTHING.(minBandwidth := Some(x))
    case MaxLatency => NOTHING.(maxLatency := Some(x))
    case MaxJitter => NOTHING.(maxJitter := Some(x))
    case MaxLoss => NOTHING.(maxLoss := Some(x))
    case PathDiversity => NOTHING.(pathDiversity := Some(x))
    case FailureDomainSeparation => NOTHING.(failureDomainSeparation := Some(x))
    case TrafficPriority => NOTHING.(trafficPriority := Some(x))
    case BurstAllowance => NOTHING.(burstAllowance := Some(x))
    case _ => NOTHING
  }

  ghost predicate Included(b: Requirement, a: Requirement, current: Id) {
    forall entry :: Satisfies(b, entry, current) ==> Satisfies(a, entry, current)
  }

  /** The bound that decides: the strict one, or for a preference the weaker of the two. */
  function Bound(r: Requirement): real {
    if r.strength.Required? then r.target
    else if r.kind.IsFloor() == (r.minimum <= r.target) then r.minimum
    else r.target
  }

  /** What evidence reports in the dimension of a numeric kind. */
  function Observation(kind: Kind, c: Candidate): Option<real> {
    match kind
    case MinBandwidth => c.minBandwidth
    case MaxLatency => c.maxLatency
    case MaxJitter => c.maxJitter
    case MaxLoss => c.maxLoss
    case PathDiversity => c.pathDiversity
    case FailureDomainSeparation => c.failureDomainSeparation
    case TrafficPriority => c.trafficPriority
    case BurstAllowance => c.burstAllowance
    case _ => None
  }

  lemma SuppliedIsObserved(kind: Kind, x: real)
    requires kind.IsNumeric()
    ensures Observation(kind, Supplying(kind, x)) == Some(x)
  {
  }

  predicate OnGoodSide(kind: Kind, x: real, bound: real) {
    if kind.IsFloor() then x >= bound else x <= bound
  }

  /** Satisfied exactly by current evidence of this incarnation that reports a number on the good side of the bound. */
  lemma BoundSatisfies(r: Requirement, entry: Option<Entry>, current: Id)
    requires r.kind.IsNumeric() && !r.strength.Informational?
    ensures Satisfies(r, entry, current)
       <==> entry.Some? && entry.value.capturedBy == current && entry.value.freshness == Current
            && Observation(r.kind, entry.value.candidate).Some?
            && OnGoodSide(r.kind, Observation(r.kind, entry.value.candidate).value, Bound(r))
  {
    hide AttributeOf, CollectiveVerdict, Textual;
  }

  /** For numeric requirements the deciding bound is the whole meaning: inclusion of satisfaction over all evidence
      is exactly the order of the deciding bounds. */
  lemma BoundIsExact(a: Requirement, b: Requirement, current: Id)
    requires a.CompositeKey() == b.CompositeKey() && a.kind.IsNumeric()
    requires !a.strength.Informational? && !b.strength.Informational?
    ensures Included(b, a, current) <==> if a.kind.IsFloor() then Bound(b) >= Bound(a) else Bound(b) <= Bound(a)
  {
    hide Satisfies, Bound, Observation, Supplying;
    forall entry
      ensures OnGoodSide(a.kind, Bound(b), Bound(a)) && Satisfies(b, entry, current) ==> Satisfies(a, entry, current)
    {
      BoundSatisfies(a, entry, current);
      BoundSatisfies(b, entry, current);
    }
    if Included(b, a, current) {
      var entry := Some(Entry(a.scope, "", "", 1, current, 0, 0, Supplying(a.kind, Bound(b)), Current));
      SuppliedIsObserved(a.kind, Bound(b));
      BoundSatisfies(a, entry, current);
      BoundSatisfies(b, entry, current);
      assert Satisfies(b, entry, current);
    }
  }

  predicate IsTextual(kind: Kind) {
    kind in {Locality, SecurityClass, DisaggregatedAffinity, MaintenanceTolerance}
  }

  function Saying(kind: Kind, text: string): Candidate {
    match kind
    case Locality => NOTHING.(locality := Some(text))
    case SecurityClass => NOTHING.(securityClass := Some(text))
    case DisaggregatedAffinity => NOTHING.(disaggregatedAffinity := Some(text))
    case MaintenanceTolerance => NOTHING.(maintenanceTolerance := Some(text))
    case _ => NOTHING
  }

  /** The texts that satisfy a textual requirement. */
  function Wanted(r: Requirement): set<string> {
    (if r.strength.Required? then {r.value} else {r.value, r.preferredValue}) - {""}
  }

  function Text(kind: Kind, c: Candidate): Option<string> {
    match kind
    case Locality => c.locality
    case SecurityClass => c.securityClass
    case DisaggregatedAffinity => c.disaggregatedAffinity
    case MaintenanceTolerance => c.maintenanceTolerance
    case _ => None
  }

  /** Satisfied exactly by current evidence of this incarnation that reports a wanted text. */
  lemma TextSatisfies(r: Requirement, entry: Option<Entry>, current: Id)
    requires IsTextual(r.kind) && !r.strength.Informational?
    ensures Satisfies(r, entry, current)
       <==> entry.Some? && entry.value.capturedBy == current && entry.value.freshness == Current
            && Text(r.kind, entry.value.candidate).Some? && Text(r.kind, entry.value.candidate).value in Wanted(r)
  {
    hide AttributeOf, CollectiveVerdict;
  }

  /** For textual requirements the wanted texts are the whole meaning. */
  lemma TextIsExact(a: Requirement, b: Requirement, current: Id)
    requires a.CompositeKey() == b.CompositeKey() && IsTextual(a.kind)
    requires !a.strength.Informational? && !b.strength.Informational?
    ensures Included(b, a, current) <==> Wanted(b) <= Wanted(a)
  {
    hide Satisfies, Wanted;
    forall entry
      ensures Wanted(b) <= Wanted(a) && Satisfies(b, entry, current) ==> Satisfies(a, entry, current)
    {
      TextSatisfies(a, entry, current);
      TextSatisfies(b, entry, current);
    }
    if Included(b, a, current) {
      forall text | text in Wanted(b)
        ensures text in Wanted(a)
      {
        var entry := Some(Entry(a.scope, "", "", 1, current, 0, 0, Saying(a.kind, text), Current));
        TextSatisfies(a, entry, current);
        TextSatisfies(b, entry, current);
        assert Satisfies(b, entry, current);
      }
    }
  }

  /** Whether evidence says anything that bears on a requirement. */
  predicate Speaks(c: Candidate, r: Requirement) {
    match r.kind
    case MinBandwidth => c.minBandwidth.Some?
    case MaxLatency => c.maxLatency.Some?
    case MaxJitter => c.maxJitter.Some?
    case MaxLoss => c.maxLoss.Some?
    case PathDiversity => c.pathDiversity.Some?
    case FailureDomainSeparation => c.failureDomainSeparation.Some?
    case TrafficPriority => c.trafficPriority.Some?
    case BurstAllowance => c.burstAllowance.Some?
    case Locality => c.locality.Some? && c.locality.value != ""
    case SecurityClass => c.securityClass.Some? && c.securityClass.value != ""
    case DisaggregatedAffinity => c.disaggregatedAffinity.Some? && c.disaggregatedAffinity.value != ""
    case MaintenanceTolerance => c.maintenanceTolerance.Some? && c.maintenanceTolerance.value != ""
    case CheckpointIsolation => c.checkpointIsolation.Some?
    case Collective =>
      c.collectiveSupported.Some?
      && (c.collectiveSupported.value && r.value != "unsupported" ==> !MemberMissing(c, r.members))
    case Attribute => AttributeOf(c.attributes, r.key).Some?
  }

  /** UNKNOWN is exactly the absence of current evidence of this incarnation that speaks to the requirement;
      silence is never taken for a violation, nor a violation for silence. */
  lemma UnknownIsSilence(r: Requirement, entry: Option<Entry>, current: Id)
    requires !r.strength.Informational?
    ensures Decide(r, entry, current).satisfaction == Unknown
       <==> !(entry.Some? && entry.value.capturedBy == current && entry.value.freshness == Current
              && Speaks(entry.value.candidate, r))
  {
    hide AttributeOf;
    if entry.Some? && r.kind.Collective? {
      AllMatched(entry.value.candidate, r.members);
    }
  }

  /** Checkpoint isolation is wanted unless the value is empty or "none", and attributes are wanted as they are written;
      each is satisfied exactly by current evidence of this incarnation that reports what is wanted. */
  lemma FlagsAndAttributes(r: Requirement, entry: Option<Entry>, current: Id)
    requires !r.strength.Informational?
    ensures var good := entry.Some? && entry.value.capturedBy == current && entry.value.freshness == Current;
      && (r.kind.CheckpointIsolation? ==>
            (Satisfies(r, entry, current) <==>
               good && entry.value.candidate.checkpointIsolation == Some(r.value != "" && r.value != "none")))
      && (r.kind.Attribute? ==>
            (Satisfies(r, entry, current) <==> good && AttributeOf(entry.value.candidate.attributes, r.key) == Some(r.value)))
  {
    hide AttributeOf, CollectiveVerdict, Ceiling, FloorValue, Textual;
  }

  /** The value of an attribute is that of its first occurrence. */
  lemma {:induction false} FirstAttribute(attributes: seq<(string, string)>, i: nat)
    requires i < |attributes| && forall k :: 0 <= k < i ==> attributes[k].0 != attributes[i].0
    ensures AttributeOf(attributes, attributes[i].0) == Some(attributes[i].1)
  {
    if i > 0 {
      FirstAttribute(attributes[1..], i - 1);
    }
  }

  /** The reason that comes with a verdict: a decision names none, and an UNKNOWN names the first thing that is
      missing. */
  lemma ReasonIs(r: Requirement, entry: Option<Entry>, current: Id)
    ensures var d := Decide(r, entry, current);
      && (d.reason == Ok <==> d.satisfaction != Unknown)
      && (d.satisfaction == NotApplicable <==> r.strength.Informational?)
      && (!r.strength.Informational? ==>
            && (d.reason == NoEvidence <==> entry.None?)
            && (d.reason == NeedsRevalidation <==>
                  entry.Some? && (entry.value.capturedBy != current || entry.value.freshness == RevalidationRequired))
            && (d.reason == EvidenceExpired <==>
                  entry.Some? && entry.value.capturedBy == current && entry.value.freshness == Expired)
            && (d.reason == EvidenceStale <==>
                  entry.Some? && entry.value.capturedBy == current && entry.value.freshness == Stale)
            && (d.reason == MissingDimension <==>
                  && entry.Some? && entry.value.capturedBy == current && entry.value.freshness == Current
                  && !Speaks(entry.value.candidate, r)))
  {
    hide AttributeOf;
    if entry.Some? && r.kind.Collective? {
      AllMatched(entry.value.candidate, r.members);
    }
  }

  /** Evidence attributes that report exactly these members as present. */
  function Reporting(members: seq<Id>): seq<(string, string)> {
    seq(|members|, i requires 0 <= i < |members| => (MemberName(members[i]), "present"))
  }

  lemma {:induction false} ReportedAre(members: seq<Id>, m: Id)
    ensures AttributeOf(Reporting(members), MemberName(m)) == if m in members then Some("present") else None
  {
    if members != [] {
      assert Reporting(members)[1..] == Reporting(members[1..]);
      assert MemberName(members[0]) == MemberName(m) ==> MemberName(members[0])[7..] == MemberName(m)[7..];
      assert MemberName(members[0])[7..] == members[0] && MemberName(m)[7..] == m;
      ReportedAre(members[1..], m);
    }
  }

  /** Satisfied exactly by current evidence of this incarnation with the wanted support and every member present. */
  lemma CollectiveSatisfies(r: Requirement, entry: Option<Entry>, current: Id)
    requires r.kind.Collective? && r.strength.Required?
    ensures Satisfies(r, entry, current)
       <==> && entry.Some? && entry.value.capturedBy == current && entry.value.freshness == Current
            && entry.value.candidate.collectiveSupported == Some(r.value != "unsupported")
            && (r.value != "unsupported" ==>
                  forall m :: m in r.members ==> AttributeOf(entry.value.candidate.attributes, MemberName(m)) == Some("present"))
  {
    hide AttributeOf, MemberName;
    if entry.Some? {
      AllMatched(entry.value.candidate, r.members);
    }
  }

  /** For REQUIRED collective requirements that pass for unchanged, inclusion of satisfaction is exactly that no member
      was dropped: the comparison of members that the compatibility check does not make. */
  lemma CollectiveIsExact(a: Requirement, b: Requirement, current: Id)
    requires a.kind.Collective? && a.strength.Required? && NoWeaker(a, b) && a.WellFormed()
    ensures Included(b, a, current) <==> a.value == "unsupported" || forall m :: m in a.members ==> m in b.members
  {
    hide Satisfies, AttributeOf, MemberName;
    forall entry
      ensures (a.value == "unsupported" || forall m :: m in a.members ==> m in b.members) && Satisfies(b, entry, current)
           ==> Satisfies(a, entry, current)
    {
      CollectiveSatisfies(a, entry, current);
      CollectiveSatisfies(b, entry, current);
    }
    if Included(b, a, current) && a.value != "unsupported" {
      var candidate := NOTHING.(collectiveSupported := Some(true), attributes := Reporting(b.members));
      var entry := Some(Entry(a.scope, "", "", 1, current, 0, 0, candidate, Current));
      CollectiveSatisfies(a, entry, current);
      CollectiveSatisfies(b, entry, current);
      forall m
        ensures AttributeOf(candidate.attributes, MemberName(m)) == if m in b.members then Some("present") else None
      {
        ReportedAre(b.members, m);
      }
      assert Satisfies(b, entry, current);
    }
  }

  // ---------------------------------------------------------------------------
  // A whole contract
  // ---------------------------------------------------------------------------

  datatype Item = Item(requirement: Requirement, decision: Decision)

  /** One pass: an unsatisfied REQUIRED verdict decides at once. */
  method AggregateSatisfaction(items: seq<Item>) returns (aggregate: Satisfaction)
    ensures aggregate == Unsatisfied <==> exists x :: x in items && IsRequired(x, Unsatisfied)
    ensures aggregate == Unknown <==>
      aggregate != Unsatisfied && exists x :: x in items && IsRequired(x, Unknown)
    ensures aggregate == NotApplicable <==> forall x :: x in items ==> !x.requirement.strength.Required?
  {
    var anyUnknown, anyRequired := false, false;
    for i := 0 to |items|
      invariant anyRequired <==> exists k :: 0 <= k < i && items[k].requirement.strength.Required?
      invariant anyUnknown <==> exists k :: 0 <= k < i && IsRequired(items[k], Unknown)
      invariant forall k :: 0 <= k < i ==> !IsRequired(items[k], Unsatisfied)
    {
      var item := items[i];
      if !item.requirement.strength.Required? {
        continue;
      }
      anyRequired := true;
      if item.decision.satisfaction == Unsatisfied {
        assert items[i] in items;
        return Unsatisfied;
      }
      if item.decision.satisfaction == Unknown {
        anyUnknown := true;
      }
    }
    if anyUnknown {
      return Unknown;
    }
    if !anyRequired {
      return NotApplicable;
    }
    aggregate := Satisfied;
  }

  predicate IsRequired(x: Item, s: Satisfaction) {
    x.requirement.strength.Required? && x.decision.satisfaction == s
  }

  function Verdicts(rs: seq<Requirement>, entries: seq<Entry>, current: Id): (items: seq<Item>)
    ensures |items| == |rs|
  {
    seq(|rs|, i requires 0 <= i < |rs| => Item(rs[i], Decide(rs[i], Find(entries, rs[i].scope), current)))
  }

  /** Verdicts in canonical order, and the aggregate over them. SATISFIED means that something is required and
      every REQUIRED requirement was decided SATISFIED from current evidence of this incarnation. */
  method EvaluateContract(body: Body, evidence: EvidenceSet, current: Id)
    returns (items: seq<Item>, aggregate: Satisfaction)
    ensures items == Verdicts(Sort(Precedes, body.requirements), evidence.entries, current)
    ensures aggregate == Satisfied <==>
      (exists r :: r in body.requirements && r.strength.Required?)
      && forall r :: r in body.requirements && r.strength.Required? ==>
           Satisfies(r, Find(evidence.entries, r.scope), current)
    ensures aggregate == Unsatisfied <==>
      exists r :: r in body.requirements && r.strength.Required?
        && Decide(r, Find(evidence.entries, r.scope), current).satisfaction == Unsatisfied
  {
    hide Decide, Find, Sort;
    var ordered := Sort(Precedes, body.requirements);
    SortPermutes(Precedes, body.requirements);
    SamePermutation(ordered, body.requirements);
    items := [];
    for i := 0 to |ordered|
      invariant items == Verdicts(ordered, evidence.entries, current)[..i]
    {
      var entry := Find(evidence.entries, ordered[i].scope);
      items := items + [Item(ordered[i], Decide(ordered[i], entry, current))];
    }
    aggregate := AggregateSatisfaction(items);
    RequiredIsDecided(ordered, evidence.entries, current);
    ItemsOf(ordered, evidence.entries, current);
  }

  /** A REQUIRED requirement is never decided NOT_APPLICABLE. */
  lemma RequiredIsDecided(rs: seq<Requirement>, entries: seq<Entry>, current: Id)
    ensures forall x :: x in Verdicts(rs, entries, current) ==> !IsRequired(x, NotApplicable)
  {
  }

  lemma ItemsOf(rs: seq<Requirement>, entries: seq<Entry>, current: Id)
    ensures forall r :: r in rs ==> Item(r, Decide(r, Find(entries, r.scope), current)) in Verdicts(rs, entries, current)
    ensures forall x :: x in Verdicts(rs, entries, current) ==>
      x.requirement in rs && x.decision == Decide(x.requirement, Find(entries, x.requirement.scope), current)
  {
    hide Decide, Find;
    var items := Verdicts(rs, entries, current);
    forall r | r in rs
      ensures Item(r, Decide(r, Find(entries, r.scope), current)) in items
    {
      var i :| 0 <= i < |rs| && rs[i] == r;
      assert items[i] in items;
    }
  }

  // ---------------------------------------------------------------------------
  // Freshness of supplied evidence
  // ---------------------------------------------------------------------------

  /** The freshness an entry deserves under this incarnation, now. A zero age bound means no bound. */
  function Freshened(e: Entry, epoch: nat, current: Id, now: nat, maxAge: nat): Freshness {
    if e.capturedBy != current || e.epoch != epoch then RevalidationRequired
    else if maxAge > 0 && now > e.producedAt && now - e.producedAt > maxAge then Expired
    else Current
  }

  /** Evidence of this boot is current up to the age bound and expired beyond it, to the millisecond; evidence of any
      other boot awaits revalidation; a clock that runs behind makes nothing expire. */
  lemma FreshnessIs(e: Entry, epoch: nat, current: Id, now: nat, maxAge: nat)
    ensures var f, own := Freshened(e, epoch, current, now, maxAge), e.capturedBy == current && e.epoch == epoch;
      && (f == Current <==> own && (maxAge == 0 || now <= e.producedAt + maxAge))
      && (f == Expired <==> own && maxAge > 0 && now > e.producedAt + maxAge)
      && (f == RevalidationRequired <==> !own)
  {
  }

  function Restamped(e: Entry, epoch: nat, current: Id, now: nat, maxAge: nat): Entry {
    e.(freshness := Freshened(e, epoch, current, now, maxAge))
  }

  predicate HasAnyDimension(c: Candidate) {
    c != NOTHING
  }

  /** Restamps every entry in place, whatever freshness it claimed, and accepts the set exactly when every
      entry names a declared scope, no scope repeats, and every entry supplies something. */
  method ValidateEvidence(evidence: EvidenceSet, body: Body, current: Id, now: nat, maxAge: nat)
    returns (ok: bool, stamped: EvidenceSet)
    ensures stamped == evidence.(entries := stamped.entries) && |stamped.entries| == |evidence.entries|
    ensures forall i :: 0 <= i < |evidence.entries| ==>
      stamped.entries[i] == Restamped(evidence.entries[i], evidence.epoch, current, now, maxAge)
    ensures forall i :: 0 <= i < |evidence.entries| ==>
      var e, f := evidence.entries[i], stamped.entries[i].freshness;
      var own := e.capturedBy == current && e.epoch == evidence.epoch;
      && (f == Current <==> own && (maxAge == 0 || now <= e.producedAt + maxAge))
      && (f == Expired <==> own && maxAge > 0 && now > e.producedAt + maxAge)
    ensures ok <==>
      && (forall e :: e in evidence.entries ==> Declares(body, e.scope) && HasAnyDimension(e.candidate))
      && (forall i, j :: 0 <= i < j < |evidence.entries| ==> evidence.entries[i].scope != evidence.entries[j].scope)
  {
    var entries, seen: set<string> := evidence.entries, {};
    ok := true;
    for i := 0 to |entries|
      invariant |entries| == |evidence.entries|
      invariant forall k :: i <= k < |entries| ==> entries[k] == evidence.entries[k]
      invariant forall k :: 0 <= k < i ==>
        entries[k] == Restamped(evidence.entries[k], evidence.epoch, current, now, maxAge)
      invariant forall s :: s in seen <==> exists k :: 0 <= k < i && evidence.entries[k].scope == s
      invariant ok <==>
        && (forall k :: 0 <= k < i ==> Declares(body, evidence.entries[k].scope) && HasAnyDimension(evidence.entries[k].candidate))
        && (forall k, l :: 0 <= k < l < i ==> evidence.entries[k].scope != evidence.entries[l].scope)
    {
      var e := entries[i];
      if !Declares(body, e.scope) || e.scope in seen || !HasAnyDimension(e.candidate) {
        ok := false;
      }
      seen := seen + {e.scope};
      entries := entries[i := Restamped(e, evidence.epoch, current, now, maxAge)];
    }
    stamped := evidence.(entries := entries);
  }

  predicate Declares(body: Body, scope: string) {
    exists s :: s in body.scopes && s.name == scope
  }
}
