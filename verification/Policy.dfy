/** Compatibility between consecutive generations of a contract, and what it preserves. */
module Policy {
  import opened Options
  import opened Contracts
  import opened Evaluation

  datatype Diagnostic =
    | IncompatibleMajor | IncompatibleKindChanged | StaleGeneration
    | RequirementRemoved | ScopeRemoved | RequirementWeakened

  datatype Compatibility = Compatible | CompatibleWithAdditions | Incompatible

  /** A diagnostic log keeps its first entries and drops the rest. */
  const LOG_LIMIT: nat := 64

  function Logged(log: seq<Diagnostic>, d: Diagnostic): (r: seq<Diagnostic>)
    ensures r != [] && log <= r
    ensures |log| <= LOG_LIMIT ==> |r| <= LOG_LIMIT
  {
    if |log| >= LOG_LIMIT then log else log + [d]
  }

  /** The first requirement with a key. */
  function Lookup(requirements: seq<Requirement>, key: Key): (r: Option<Requirement>)
    ensures r.Some? ==> r.value in requirements && r.value.CompositeKey() == key
    ensures r.None? ==> forall x :: x in requirements ==> x.CompositeKey() != key
  {
    if requirements == [] then None
    else
      var last := |requirements| - 1;
      var before := Lookup(requirements[..last], key);
      if before.Some? then before
      else if requirements[last].CompositeKey() == key then Some(requirements[last]) else None
  }

  // ---------------------------------------------------------------------------
  // The rules, stated once for a pair of bodies
  // ---------------------------------------------------------------------------

  /** What the next body must do for one requirement of the previous body. */
  predicate Carried(r: Requirement, next: Body) {
    match Lookup(next.requirements, r.CompositeKey())
    case None => !r.strength.Required? && Declares(next, r.scope)
    case Some(c) =>
      && c.strength.Level() >= r.strength.Level()
      && c.hasNumeric == r.hasNumeric
      && (r.hasNumeric ==> BoundsHold(r, c))
      && (!r.hasNumeric && r.strength.Required? ==> c.value == r.value && c.preferredValue == r.preferredValue)
  }

  ghost predicate CompatibleBodies(previous: Body, next: Body) {
    && previous.major == next.major
    && previous.workload.id == next.workload.id
    && next.generation > previous.generation
    && forall r :: r in previous.requirements ==> Carried(r, next)
  }

  // ---------------------------------------------------------------------------
  // The check
  // ---------------------------------------------------------------------------

  method IndexRequirements(requirements: seq<Requirement>) returns (index: map<Key, Requirement>)
    ensures forall key :: key in index <==> Lookup(requirements, key).Some?
    ensures forall key :: key in index ==> Lookup(requirements, key) == Some(index[key])
  {
    index := map[];
    for i := 0 to |requirements|
      invariant forall key :: key in index <==> Lookup(requirements[..i], key).Some?
      invariant forall key :: key in index ==> Lookup(requirements[..i], key) == Some(index[key])
    {
      ghost var before := index;
      LookupStep(requirements, i);
      var key := requirements[i].CompositeKey();
      if key !in index {
        index := index[key := requirements[i]];
      }
    }
    assert requirements[..|requirements|] == requirements;
  }

  lemma LookupStep(requirements: seq<Requirement>, i: nat)
    requires i < |requirements|
    ensures forall key :: Lookup(requirements[..i + 1], key)
                       == if Lookup(requirements[..i], key).Some? then Lookup(requirements[..i], key)
                          else if requirements[i].CompositeKey() == key then Some(requirements[i]) else None
  {
    assert requirements[..i + 1][..i] == requirements[..i];
  }

  /** What follows the old requirement under its key has less strength, or a bound that does not hold it. */
  ghost predicate Weakened(r: Requirement, next: Body) {
    var c := Lookup(next.requirements, r.CompositeKey());
    && c.Some?
    && (c.value.strength.Level() < r.strength.Level() || (r.hasNumeric && c.value.hasNumeric && !BoundsHold(r, c.value)))
  }

  ghost predicate FormChanged(r: Requirement, next: Body) {
    var c := Lookup(next.requirements, r.CompositeKey());
    && c.Some?
    && (r.hasNumeric != c.value.hasNumeric
        || (!r.hasNumeric && r.strength.Required? && (r.value != c.value.value || r.preferredValue != c.value.preferredValue)))
  }

  /** What a diagnostic says about a pair of bodies. */
  ghost predicate Justified(d: Diagnostic, previous: Body, next: Body) {
    match d
    case IncompatibleMajor => previous.major != next.major
    case StaleGeneration => next.generation <= previous.generation
    case RequirementRemoved =>
      exists r :: r in previous.requirements && r.strength.Required?
        && forall c :: c in next.requirements ==> c.CompositeKey() != r.CompositeKey()
    case ScopeRemoved =>
      exists r :: r in previous.requirements && !Declares(next, r.scope)
        && forall c :: c in next.requirements ==> c.CompositeKey() != r.CompositeKey()
    case RequirementWeakened => exists r :: r in previous.requirements && Weakened(r, next)
    case IncompatibleKindChanged =>
      previous.workload.id != next.workload.id || exists r :: r in previous.requirements && FormChanged(r, next)
  }

  ghost predicate AllJustified(log: seq<Diagnostic>, previous: Body, next: Body) {
    forall d :: d in log ==> Justified(d, previous, next)
  }

  lemma JustifiedOne(log: seq<Diagnostic>, d: Diagnostic, previous: Body, next: Body)
    requires AllJustified(log, previous, next) && Justified(d, previous, next)
    ensures AllJustified(Logged(log, d), previous, next)
  {
    hide Justified;
  }

  /** The diagnostics of one requirement; several may be reported for it. */
  method CheckRequirement(r: Requirement, next: Body, index: map<Key, Requirement>, log: seq<Diagnostic>,
                          ghost previous: Body)
    returns (out: seq<Diagnostic>)
    requires r in previous.requirements && AllJustified(log, previous, next)
    requires forall key :: key in index <==> Lookup(next.requirements, key).Some?
    requires forall key :: key in index ==> Lookup(next.requirements, key) == Some(index[key])
    requires |log| <= LOG_LIMIT
    ensures |out| <= LOG_LIMIT && forall d :: d in log ==> d in out
    ensures out == [] <==> log == [] && Carried(r, next)
    ensures AllJustified(out, previous, next)
  {
    hide AllJustified;
    out := log;
    if r.CompositeKey() !in index {
      if r.strength.Required? {
        JustifiedOne(out, RequirementRemoved, previous, next);
        out := Logged(out, RequirementRemoved);
      } else if !Declares(next, r.scope) {
        JustifiedOne(out, ScopeRemoved, previous, next);
        out := Logged(out, ScopeRemoved);
      }
      return;
    }
    var c := index[r.CompositeKey()];
    if c.strength.Level() < r.strength.Level() {
      assert Weakened(r, next);
      JustifiedOne(out, RequirementWeakened, previous, next);
      out := Logged(out, RequirementWeakened);
    }
    if r.hasNumeric && c.hasNumeric {
      var floor := r.kind.IsFloor();
      if if floor then c.minimum < r.minimum else c.minimum > r.minimum {
        assert Weakened(r, next);
        JustifiedOne(out, RequirementWeakened, previous, next);
        out := Logged(out, RequirementWeakened);
      }
      if if floor then c.target < r.target else c.target > r.target {
        assert Weakened(r, next);
        JustifiedOne(out, RequirementWeakened, previous, next);
        out := Logged(out, RequirementWeakened);
      }
    } else if r.hasNumeric != c.hasNumeric {
      assert FormChanged(r, next);
      JustifiedOne(out, IncompatibleKindChanged, previous, next);
      out := Logged(out, IncompatibleKindChanged);
    } else if r.strength.Required? && (r.value != c.value || r.preferredValue != c.preferredValue) {
      assert FormChanged(r, next);
      JustifiedOne(out, IncompatibleKindChanged, previous, next);
      out := Logged(out, IncompatibleKindChanged);
    }
  }

  /** The verdict is compatible exactly when every rule holds: the bounded log may drop diagnostics, but it never
      drops the first one. */
  method CheckCompatibility(previous: Body, next: Body) returns (verdict: Compatibility, log: seq<Diagnostic>)
    ensures verdict.Incompatible? <==> log != []
    ensures !verdict.Incompatible? <==> CompatibleBodies(previous, next)
    ensures AllJustified(log, previous, next) && |log| <= LOG_LIMIT
    ensures IncompatibleMajor in log <==> previous.major != next.major
    ensures StaleGeneration in log <==> next.generation <= previous.generation
    ensures verdict.Compatible? <==>
      CompatibleBodies(previous, next) && |next.requirements| <= |previous.requirements|
      && forall r :: r in next.requirements ==> Lookup(previous.requirements, r.CompositeKey()).Some?
  {
    hide Lookup, Carried;
    log := [];
    if previous.major != next.major {
      log := Logged(log, IncompatibleMajor);
    }
    if previous.workload.id != next.workload.id {
      log := Logged(log, IncompatibleKindChanged);
    }
    if next.generation <= previous.generation {
      log := Logged(log, StaleGeneration);
    }
    var index := IndexRequirements(next.requirements);
    for i := 0 to |previous.requirements|
      invariant |log| <= LOG_LIMIT && AllJustified(log, previous, next)
      invariant previous.major != next.major ==> IncompatibleMajor in log
      invariant next.generation <= previous.generation ==> StaleGeneration in log
      invariant log == [] <==>
        && previous.major == next.major && previous.workload.id == next.workload.id
        && next.generation > previous.generation
        && forall k :: 0 <= k < i ==> Carried(previous.requirements[k], next)
    {
      log := CheckRequirement(previous.requirements[i], next, index, log, previous);
    }
    if log != [] {
      return Incompatible, log;
    }
    var added := |next.requirements| > |previous.requirements|;
    var present := IndexRequirements(previous.requirements);
    for i := 0 to |next.requirements|
      invariant added <==>
        (|next.requirements| > |previous.requirements|
         || exists k :: 0 <= k < i && Lookup(previous.requirements, next.requirements[k].CompositeKey()).None?)
    {
      if next.requirements[i].CompositeKey() !in present {
        added := true;
      }
    }
    verdict := if added then CompatibleWithAdditions else Compatible;
  }

  // ---------------------------------------------------------------------------
  // What the rules mean
  // ---------------------------------------------------------------------------

  /** A requirement may disappear only when it is not REQUIRED and its scope is still declared. */
  lemma RemovalIs(r: Requirement, next: Body)
    requires forall c :: c in next.requirements ==> c.CompositeKey() != r.CompositeKey()
    ensures Carried(r, next) <==>
      !r.strength.Required? && exists i :: 0 <= i < |next.scopes| && next.scopes[i].name == r.scope
  {
    if Declares(next, r.scope) {
      var s :| s in next.scopes && s.name == r.scope;
      var i :| 0 <= i < |next.scopes| && next.scopes[i] == s;
    }
    if i :| 0 <= i < |next.scopes| && next.scopes[i].name == r.scope {
      assert next.scopes[i] in next.scopes;
    }
  }

  /** Preferences included: whatever satisfies the numeric requirement of the next generation satisfies the one it took
      the place of, and its strength did not fall. */
  lemma CarriedIsSound(r: Requirement, next: Body, current: Id)
    requires Carried(r, next) && Lookup(next.requirements, r.CompositeKey()).Some?
    requires r.kind.IsNumeric() && r.hasNumeric && !r.strength.Informational?
    ensures var c := Lookup(next.requirements, r.CompositeKey()).value;
      Included(c, r, current) && c.strength.Level() >= r.strength.Level()
  {
    hide Included, Lookup;
    BoundIsExact(r, Lookup(next.requirements, r.CompositeKey()).value, current);
  }

  lemma {:induction false} LookupUnique(s: seq<Requirement>, c: Requirement)
    requires DistinctKeys(s) && c in s
    ensures Lookup(s, c.CompositeKey()) == Some(c)
  {
    var last := |s| - 1;
    if c in s[..last] {
      LookupUnique(s[..last], c);
    } else {
      assert s[last] == c;
      assert forall x :: x in s[..last] ==> x.CompositeKey() != c.CompositeKey();
    }
  }

  /** Keeping every requirement and adding others is compatible, whatever happens to the rest of the body. */
  lemma AdditionsAreCompatible(previous: Body, next: Body)
    requires previous.major == next.major && previous.workload.id == next.workload.id && next.generation > previous.generation
    requires DistinctKeys(next.requirements) && forall r :: r in previous.requirements ==> r in next.requirements
    ensures CompatibleBodies(previous, next)
  {
    hide Lookup;
    forall r | r in previous.requirements
      ensures Carried(r, next)
    {
      LookupUnique(next.requirements, r);
    }
  }

  // ---------------------------------------------------------------------------
  // Publication chains
  // ---------------------------------------------------------------------------

  /** Consecutive generations, each checked against the one before. */
  ghost predicate Chain(bodies: seq<Body>) {
    forall i :: 0 <= i < |bodies| - 1 ==> CompatibleBodies(bodies[i], bodies[i + 1])
  }

  /** A REQUIRED requirement is found again in the next generation, no weaker. */
  lemma OneStep(previous: Body, next: Body, r: Requirement) returns (c: Requirement)
    requires CompatibleBodies(previous, next) && r in previous.requirements && r.strength.Required?
    ensures Lookup(next.requirements, r.CompositeKey()) == Some(c)
    ensures c in next.requirements && NoWeaker(r, c) && (!r.hasNumeric ==> c.preferredValue == r.preferredValue)
  {
    assert Carried(r, next);
    c := Lookup(next.requirements, r.CompositeKey()).value;
  }

  /** Along any chain every REQUIRED requirement stays present and REQUIRED, with bounds no weaker or the
      same text. */
  lemma {:induction false} ChainKeeps(bodies: seq<Body>, i: nat, j: nat, r: Requirement) returns (c: Requirement)
    requires Chain(bodies) && i <= j < |bodies|
    requires r in bodies[i].requirements && r.strength.Required?
    ensures c in bodies[j].requirements && NoWeaker(r, c)
    ensures i < j ==> Lookup(bodies[j].requirements, r.CompositeKey()) == Some(c)
    decreases j
  {
    if i == j {
      c := r;
      NoWeakerReflexive(r);
    } else {
      var b := ChainKeeps(bodies, i, j - 1, r);
      assert CompatibleBodies(bodies[j - 1], bodies[j]);
      c := OneStep(bodies[j - 1], bodies[j], b);
      NoWeakerTransitive(r, b, c);
    }
  }

  lemma NoWeakerReflexive(r: Requirement)
    requires r.strength.Required?
    ensures NoWeaker(r, r)
  {
  }

  /** Every evidence set under which generation j decides the requirement SATISFIED makes generation i's
      version of it SATISFIED too. */
  lemma ChainPreservesMeaning(bodies: seq<Body>, i: nat, j: nat, r: Requirement, entries: seq<Entry>, current: Id)
    requires Chain(bodies) && i < j < |bodies|
    requires r in bodies[i].requirements && r.strength.Required? && r.WellFormed() && !r.kind.Collective?
    ensures Lookup(bodies[j].requirements, r.CompositeKey()).Some?
    ensures var c := Lookup(bodies[j].requirements, r.CompositeKey()).value;
      Satisfies(c, Find(entries, c.scope), current) ==> Satisfies(r, Find(entries, r.scope), current)
  {
    hide Lookup, Find, Decide;
    var c := ChainKeeps(bodies, i, j, r);
    if Satisfies(c, Find(entries, c.scope), current) {
      NoWeakerIsSound(r, c, Find(entries, r.scope), current);
    }
  }

  // ---------------------------------------------------------------------------
  // What the check does not see
  // ---------------------------------------------------------------------------

  /** For a collective requirement the chain preserves the meaning exactly when no member was dropped on the way, or
      the requirement asks for the absence of collectives. */
  lemma ChainOfCollectives(bodies: seq<Body>, i: nat, j: nat, r: Requirement, current: Id)
    requires Chain(bodies) && i < j < |bodies|
    requires r in bodies[i].requirements && r.strength.Required? && r.WellFormed() && r.kind.Collective?
    ensures Lookup(bodies[j].requirements, r.CompositeKey()).Some?
    ensures var c := Lookup(bodies[j].requirements, r.CompositeKey()).value;
      Included(c, r, current) <==> r.value == "unsupported" || forall m :: m in r.members ==> m in c.members
  {
    hide Lookup, Included;
    var c := ChainKeeps(bodies, i, j, r);
    CollectiveIsExact(r, c, current);
  }

  function CollectiveOf(members: seq<Id>): Requirement {
    Requirement("", "s", Collective, Required, false, 0.0, 0.0, "", "", members, [], "")
  }

  /** Members are not compared: replacing the member list of a collective requirement is compatible, and evidence
      for the new members satisfies the new requirement but not the old one. */
  lemma MembersAreNotCompared(w: Workload)
    ensures var p := Body(1, w, "", 1, 1, 1, 0, 0, "", [Scope("s", false, 0, "")], [CollectiveOf(["a"])]);
      var n := p.(generation := 2, requirements := [CollectiveOf(["b"])]);
      var e := Some(Entry("s", "", "", 1, "me", 0, 0,
                          NOTHING.(collectiveSupported := Some(true), attributes := [("member.b", "present")]), Current));
      && CompatibleBodies(p, n)
      && Satisfies(n.requirements[0], e, "me") && !Satisfies(p.requirements[0], e, "me")
  {
    var p := Body(1, w, "", 1, 1, 1, 0, 0, "", [Scope("s", false, 0, "")], [CollectiveOf(["a"])]);
    var n := p.(generation := 2, requirements := [CollectiveOf(["b"])]);
    assert Lookup(n.requirements, p.requirements[0].CompositeKey()) == Some(n.requirements[0]) by {
      assert n.requirements[..0] == [];
    }
    MemberNames("a", "b");
  }

  lemma MemberNames(a: Id, b: Id)
    requires a == "a" && b == "b"
    ensures MemberName(a) != "member.b" && MemberName(b) == "member.b"
    ensures var c := NOTHING.(collectiveSupported := Some(true), attributes := [("member.b", "present")]);
      Matched(c, [a]) == 0 && Matched(c, [b]) == 1 && MemberMissing(c, [a])
  {
    var c := NOTHING.(collectiveSupported := Some(true), attributes := [("member.b", "present")]);
    assert MemberName(a)[7] == 'a' && "member.b"[7] == 'b';
    assert c.attributes[1..] == [];
    assert AttributeOf(c.attributes, MemberName(a)).None?;
    assert [a][..0] == [] && [b][..0] == [];
    assert a in [a];
  }
}
