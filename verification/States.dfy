/** The coordinator's state, the events of its journal, and the replay of those events. */
module States {
  import opened Options
  import opened Contracts
  import opened Evaluation
  import opened Policy

  const MAX_RETAINED_GENERATIONS: nat := 4096

  datatype GenerationRecord = GenerationRecord(
    generation: nat,
    digest: Digest,
    contractId: Id,
    contract: Contract,
    recordedAt: nat,
    superseded: bool,
    retired: bool)

  datatype WorkloadState = WorkloadState(
    id: Id,
    name: string,
    workloadGeneration: nat,
    contractGeneration: nat,
    digest: Digest,
    contractId: Id,
    policyGeneration: nat,
    evidenceGeneration: nat,
    retired: bool,
    generations: seq<GenerationRecord>,
    evidence: Option<EvidenceSet>)

  datatype PolicyDocument = PolicyDocument(policyId: Id, generation: nat, rules: string)

  datatype State = State(
    workloads: map<Id, WorkloadState>,
    policy: Option<PolicyDocument>,
    policyGeneration: nat,
    evidenceFloor: nat)

  const EMPTY: State := State(map[], None, 0, 0)

  /** What the journal records. */
  datatype Event =
    | Registered(contract: Contract, recordedAt: nat)
    | Published(contract: Contract, recordedAt: nat)
    | Retired(workload: Id)
    | EvidenceAttached(evidence: EvidenceSet)
    | PolicyInstalled(policy: PolicyDocument)

  // ---------------------------------------------------------------------------
  // Generations
  // ---------------------------------------------------------------------------

  function RecordFor(c: Contract, at: nat): GenerationRecord {
    GenerationRecord(c.body.generation, c.digest, c.body.contractId, c, at, false, false)
  }

  /** Replay marks the generations below the new one. */
  function MarkBelow(gs: seq<GenerationRecord>, generation: nat): (out: seq<GenerationRecord>)
    ensures |out| == |gs|
  {
    seq(|gs|, i requires 0 <= i < |gs| =>
      if gs[i].generation < generation then gs[i].(superseded := true) else gs[i])
  }

  /** Publishing marks every generation. */
  function MarkAll(gs: seq<GenerationRecord>): (out: seq<GenerationRecord>)
    ensures |out| == |gs|
  {
    seq(|gs|, i requires 0 <= i < |gs| => gs[i].(superseded := true))
  }

  function RetireAll(gs: seq<GenerationRecord>): (out: seq<GenerationRecord>)
    ensures |out| == |gs|
  {
    seq(|gs|, i requires 0 <= i < |gs| => gs[i].(retired := true))
  }

  // ---------------------------------------------------------------------------
  // Replay
  // ---------------------------------------------------------------------------

  const FRESH: WorkloadState := WorkloadState("", "", 0, 0, "", "", 0, 0, false, [], None)

  function Held(s: State, id: Id): WorkloadState {
    if id in s.workloads then s.workloads[id] else FRESH
  }

  function ApplyContract(s: State, c: Contract, at: nat): Option<State> {
    var id := c.body.workload.id;
    var w := Held(s, id);
    var marked := MarkBelow(w.generations, c.body.generation);
    if marked != [] && marked[|marked| - 1].generation == c.body.generation then None
    else
      var next := w.(id := id, name := c.body.workload.name, workloadGeneration := c.body.workload.generation,
                     contractGeneration := c.body.generation, digest := c.digest, contractId := c.body.contractId,
                     policyGeneration := c.body.policyGeneration, generations := marked + [RecordFor(c, at)]);
      Some(s.(workloads := s.workloads[id := next]))
  }

  /** Some entry covers a scope that the body declares. */
  predicate Covers(entries: seq<Entry>, body: Body) {
    exists e :: e in entries && Declares(body, e.scope)
  }

  /** Restored evidence is never current. */
  function Aged(evidence: EvidenceSet): EvidenceSet {
    evidence.(entries := seq(|evidence.entries|, i requires 0 <= i < |evidence.entries| =>
      evidence.entries[i].(freshness := RevalidationRequired)))
  }

  predicate CoveredBy(w: WorkloadState, entries: seq<Entry>) {
    w.generations != [] && Covers(entries, w.generations[|w.generations| - 1].contract.body)
  }

  function WithEvidence(w: WorkloadState, evidence: EvidenceSet): WorkloadState {
    w.(evidence := Some(evidence), evidenceGeneration := evidence.generation)
  }

  function ApplyEvidence(s: State, submitted: EvidenceSet): State {
    var evidence := Aged(submitted);
    if forall id :: id in s.workloads ==> !CoveredBy(s.workloads[id], evidence.entries) then s
    else s.(
      workloads := map id | id in s.workloads ::
        if CoveredBy(s.workloads[id], evidence.entries) then WithEvidence(s.workloads[id], evidence) else s.workloads[id],
      evidenceFloor := if evidence.generation > s.evidenceFloor then evidence.generation else s.evidenceFloor)
  }

  function Apply(s: State, e: Event): Option<State> {
    match e
    case Registered(c, at) => ApplyContract(s, c, at)
    case Published(c, at) => ApplyContract(s, c, at)
    case Retired(id) =>
      if id !in s.workloads then None
      else Some(s.(workloads := s.workloads[id := s.workloads[id].(retired := true)]))
    case EvidenceAttached(evidence) => Some(ApplyEvidence(s, evidence))
    case PolicyInstalled(p) => Some(s.(policy := Some(p), policyGeneration := p.generation))
  }

  /** The state that opening rebuilds; no state when an event cannot be applied. */
  function Replay(events: seq<Event>): Option<State> {
    if events == [] then Some(EMPTY)
    else
      var before := Replay(events[..|events| - 1]);
      if before.None? then None else Apply(before.value, events[|events| - 1])
  }

  lemma ReplayOne(events: seq<Event>, e: Event)
    ensures Replay(events + [e]) == if Replay(events).None? then None else Apply(Replay(events).value, e)
  {
    assert (events + [e])[..|events|] == events;
  }

  // ---------------------------------------------------------------------------
  // Live steps
  // ---------------------------------------------------------------------------

  function LiveRegister(s: State, c: Contract, at: nat): State {
    var id := c.body.workload.id;
    s.(workloads := s.workloads[id := WorkloadState(
      id, c.body.workload.name, c.body.workload.generation, c.body.generation, c.digest, c.body.contractId,
      c.body.policyGeneration, 0, false, [RecordFor(c, at)], None)])
  }

  function LivePublish(s: State, c: Contract, at: nat): State
    requires c.body.workload.id in s.workloads
  {
    var id := c.body.workload.id;
    var w := s.workloads[id];
    s.(workloads := s.workloads[id := w.(
      generations := MarkAll(w.generations) + [RecordFor(c, at)],
      contractGeneration := c.body.generation, digest := c.digest, contractId := c.body.contractId,
      policyGeneration := c.body.policyGeneration, workloadGeneration := c.body.workload.generation)])
  }

  function LiveRetire(s: State, id: Id): State
    requires id in s.workloads
  {
    var w := s.workloads[id];
    s.(workloads := s.workloads[id := w.(retired := true, generations := RetireAll(w.generations))])
  }

  /** Retired workloads are passed over; the floor moves whether or not anything is covered. */
  function LiveAttach(s: State, evidence: EvidenceSet): State {
    s.(workloads := map id | id in s.workloads ::
         if !s.workloads[id].retired && CoveredBy(s.workloads[id], evidence.entries)
         then WithEvidence(s.workloads[id], evidence) else s.workloads[id],
       evidenceFloor := evidence.generation)
  }

  function LiveInstall(s: State, p: PolicyDocument): State {
    s.(policy := Some(p), policyGeneration := p.generation)
  }

  // ---------------------------------------------------------------------------
  // The generation chain of a workload
  // ---------------------------------------------------------------------------

  /** Record k of a workload: numbered k+1, described by its contract, continuing record k-1. */
  ghost predicate RecordOk(id: Id, gs: seq<GenerationRecord>, k: nat)
    requires k < |gs|
  {
    var g := gs[k];
    && g.generation == g.contract.body.generation == k + 1
    && g.digest == g.contract.digest && g.contractId == g.contract.body.contractId
    && g.contract.body.workload.id == id
    && g.superseded == (k + 1 < |gs|)
    && g.contract.supersedes == k
    && (k > 0 ==>
          && g.contract.supersedesDigest == gs[k - 1].digest
          && g.contract.envelope.publisher == gs[k - 1].contract.envelope.publisher
          && g.contract.body.major == gs[k - 1].contract.body.major
          && CompatibleBodies(gs[k - 1].contract.body, g.contract.body))
  }

  ghost predicate ChainOk(id: Id, gs: seq<GenerationRecord>) {
    && 1 <= |gs| <= MAX_RETAINED_GENERATIONS
    && forall k :: 0 <= k < |gs| ==> RecordOk(id, gs, k)
  }

  ghost predicate WorkloadOk(id: Id, w: WorkloadState) {
    && w.id == id
    && ChainOk(id, w.generations)
    && var last := w.generations[|w.generations| - 1];
       && w.contractGeneration == |w.generations|
       && w.digest == last.digest && w.contractId == last.contractId
       && w.policyGeneration == last.contract.body.policyGeneration
       && w.workloadGeneration == last.contract.body.workload.generation
       && (forall k :: 0 <= k < |w.generations| ==> w.generations[k].retired == w.retired)
  }

  ghost predicate StateOk(s: State) {
    && (forall id :: id in s.workloads ==> WorkloadOk(id, s.workloads[id]))
    && s.policyGeneration == (if s.policy.Some? then s.policy.value.generation else 0)
  }

  /** All generations of a workload share the publisher and the major version of the first. */
  lemma {:induction false} ChainShares(id: Id, gs: seq<GenerationRecord>, k: nat)
    requires ChainOk(id, gs) && k < |gs|
    ensures gs[k].contract.envelope.publisher == gs[0].contract.envelope.publisher
    ensures gs[k].contract.body.major == gs[0].contract.body.major
  {
    if k > 0 {
      assert RecordOk(id, gs, k);
      ChainShares(id, gs, k - 1);
    }
  }

  function Bodies(gs: seq<GenerationRecord>): (out: seq<Body>)
    ensures |out| == |gs|
  {
    seq(|gs|, i requires 0 <= i < |gs| => gs[i].contract.body)
  }

  /** The retained bodies form a publication chain, so whatever evidence satisfies a requirement in its latest
      generation satisfies the REQUIRED version any earlier generation stated. */
  lemma HistoryPreservesMeaning(id: Id, gs: seq<GenerationRecord>, i: nat, r: Requirement, entries: seq<Entry>, current: Id)
    requires ChainOk(id, gs) && i < |gs| - 1
    requires r in gs[i].contract.body.requirements && r.strength.Required? && r.WellFormed() && !r.kind.Collective?
    ensures var c := Lookup(gs[|gs| - 1].contract.body.requirements, r.CompositeKey());
      c.Some? && (Satisfies(c.value, Find(entries, c.value.scope), current) ==> Satisfies(r, Find(entries, r.scope), current))
  {
    hide CompatibleBodies, Lookup, Find, Decide;
    var bodies := Bodies(gs);
    forall k | 0 <= k < |bodies| - 1
      ensures CompatibleBodies(bodies[k], bodies[k + 1])
    {
      assert RecordOk(id, gs, k + 1);
    }
    assert Chain(bodies);
    ChainPreservesMeaning(bodies, i, |gs| - 1, r, entries, current);
  }

  // ---------------------------------------------------------------------------
  // Each live step keeps the chain invariants
  // ---------------------------------------------------------------------------

  ghost predicate Registrable(s: State, c: Contract) {
    c.body.workload.id !in s.workloads && c.body.generation == 1 && c.supersedes == 0
  }

  ghost predicate Publishable(s: State, c: Contract) {
    var id := c.body.workload.id;
    && id in s.workloads && !s.workloads[id].retired
    && s.workloads[id].generations != []
    && |s.workloads[id].generations| < MAX_RETAINED_GENERATIONS
    && var w := s.workloads[id];
       var last := w.generations[|w.generations| - 1];
       && c.body.generation == w.contractGeneration + 1
       && c.supersedes == w.contractGeneration && c.supersedesDigest == w.digest
       && c.body.major == last.contract.body.major
       && c.envelope.publisher == last.contract.envelope.publisher
       && CompatibleBodies(last.contract.body, c.body)
  }

  lemma RegisterKeeps(s: State, c: Contract, at: nat)
    requires StateOk(s) && Registrable(s, c)
    ensures StateOk(LiveRegister(s, c, at))
  {
    var gs := [RecordFor(c, at)];
    assert RecordOk(c.body.workload.id, gs, 0);
  }

  lemma PublishKeepsChain(id: Id, gs: seq<GenerationRecord>, c: Contract, at: nat)
    requires ChainOk(id, gs) && |gs| < MAX_RETAINED_GENERATIONS
    requires c.body.workload.id == id && c.body.generation == |gs| + 1 && c.supersedes == |gs|
    requires c.supersedesDigest == gs[|gs| - 1].digest && c.body.major == gs[|gs| - 1].contract.body.major
    requires c.envelope.publisher == gs[|gs| - 1].contract.envelope.publisher
    requires CompatibleBodies(gs[|gs| - 1].contract.body, c.body)
    ensures ChainOk(id, MarkAll(gs) + [RecordFor(c, at)])
  {
    hide CompatibleBodies;
    var out := MarkAll(gs) + [RecordFor(c, at)];
    forall k | 0 <= k < |out|
      ensures RecordOk(id, out, k)
    {
      if k < |gs| {
        assert RecordOk(id, gs, k);
      }
    }
  }

  lemma PublishKeeps(s: State, c: Contract, at: nat)
    requires StateOk(s) && Publishable(s, c)
    ensures StateOk(LivePublish(s, c, at))
  {
    hide CompatibleBodies;
    var id := c.body.workload.id;
    var w := s.workloads[id];
    assert WorkloadOk(id, w);
    PublishKeepsChain(id, w.generations, c, at);
    assert WorkloadOk(id, LivePublish(s, c, at).workloads[id]);
  }

  lemma RetireKeeps(s: State, id: Id)
    requires StateOk(s) && id in s.workloads
    ensures StateOk(LiveRetire(s, id))
  {
    hide CompatibleBodies;
    var w := s.workloads[id];
    var out := RetireAll(w.generations);
    assert WorkloadOk(id, w);
    forall k | 0 <= k < |out|
      ensures RecordOk(id, out, k)
    {
      assert RecordOk(id, w.generations, k);
    }
    assert WorkloadOk(id, LiveRetire(s, id).workloads[id]);
  }

  lemma AttachKeeps(s: State, evidence: EvidenceSet)
    requires StateOk(s)
    ensures StateOk(LiveAttach(s, evidence))
  {
    hide ChainOk, CoveredBy;
    forall id | id in s.workloads
      ensures WorkloadOk(id, LiveAttach(s, evidence).workloads[id])
    {
      assert WorkloadOk(id, s.workloads[id]);
    }
  }

  // ---------------------------------------------------------------------------
  // The live state and the replayed state
  // ---------------------------------------------------------------------------

  /** The same record; the times and the retired flag of the record are not compared. */
  predicate SameRecord(a: GenerationRecord, b: GenerationRecord) {
    a == b.(recordedAt := a.recordedAt, retired := a.retired)
  }

  function AgedEvidence(evidence: Option<EvidenceSet>): Option<EvidenceSet> {
    if evidence.None? then None else Some(Aged(evidence.value))
  }

  /** The same workload up to its evidence; the display name is not compared. */
  ghost predicate SameHistory(a: WorkloadState, b: WorkloadState) {
    && a == b.(name := a.name, generations := a.generations, evidence := a.evidence, evidenceGeneration := a.evidenceGeneration)
    && |a.generations| == |b.generations|
    && (forall k :: 0 <= k < |a.generations| ==> SameRecord(a.generations[k], b.generations[k]))
  }

  /** The same workload; evidence is compared only while it is not retired. */
  ghost predicate SameWorkload(a: WorkloadState, b: WorkloadState) {
    && SameHistory(a, b)
    && (!a.retired ==> b.evidence == AgedEvidence(a.evidence) && b.evidenceGeneration == a.evidenceGeneration)
  }

  ghost predicate SameHistories(live: State, replayed: State) {
    && live.workloads.Keys == replayed.workloads.Keys
    && (forall id :: id in live.workloads ==> SameHistory(live.workloads[id], replayed.workloads[id]))
    && live.policy == replayed.policy && live.policyGeneration == replayed.policyGeneration
  }

  ghost predicate SameView(live: State, replayed: State) {
    && live.workloads.Keys == replayed.workloads.Keys
    && (forall id :: id in live.workloads ==> SameWorkload(live.workloads[id], replayed.workloads[id]))
    && live.policy == replayed.policy && live.policyGeneration == replayed.policyGeneration
  }

  lemma RegisterReplays(s: State, t: State, c: Contract, at: nat, now: nat)
    requires SameView(s, t) && Registrable(s, c)
    ensures Apply(t, Registered(c, at)).Some? && SameView(LiveRegister(s, c, now), Apply(t, Registered(c, at)).value)
  {
    assert Held(t, c.body.workload.id) == FRESH;
  }

  /** Marking below the new generation is marking all. */
  lemma PublishWorkload(id: Id, w: WorkloadState, v: WorkloadState, c: Contract, at: nat, now: nat)
    requires WorkloadOk(id, w) && SameWorkload(w, v) && c.body.workload.id == id
    requires c.body.generation == w.contractGeneration + 1
    ensures var marked := MarkBelow(v.generations, c.body.generation);
      && marked != [] && marked[|marked| - 1].generation != c.body.generation
      && SameWorkload(
           w.(generations := MarkAll(w.generations) + [RecordFor(c, now)],
              contractGeneration := c.body.generation, digest := c.digest, contractId := c.body.contractId,
              policyGeneration := c.body.policyGeneration, workloadGeneration := c.body.workload.generation),
           v.(id := id, name := c.body.workload.name, workloadGeneration := c.body.workload.generation,
              contractGeneration := c.body.generation, digest := c.digest, contractId := c.body.contractId,
              policyGeneration := c.body.policyGeneration, generations := marked + [RecordFor(c, at)]))
  {
    hide CompatibleBodies;
    forall k | 0 <= k < |v.generations|
      ensures MarkBelow(v.generations, c.body.generation)[k] == v.generations[k].(superseded := true)
      ensures v.generations[k].generation == k + 1
    {
      assert RecordOk(id, w.generations, k) && SameRecord(w.generations[k], v.generations[k]);
    }
  }

  lemma PublishReplays(s: State, t: State, c: Contract, at: nat, now: nat)
    requires SameView(s, t) && StateOk(s) && Publishable(s, c)
    ensures Apply(t, Published(c, at)).Some? && SameView(LivePublish(s, c, now), Apply(t, Published(c, at)).value)
  {
    hide WorkloadOk, SameWorkload, CompatibleBodies, MarkAll, MarkBelow;
    var id := c.body.workload.id;
    assert WorkloadOk(id, s.workloads[id]) && SameWorkload(s.workloads[id], t.workloads[id]);
    PublishWorkload(id, s.workloads[id], t.workloads[id], c, at, now);
  }

  lemma RetireReplays(s: State, t: State, id: Id)
    requires SameView(s, t) && id in s.workloads
    ensures Apply(t, Retired(id)).Some? && SameView(LiveRetire(s, id), Apply(t, Retired(id)).value)
  {
    assert SameWorkload(s.workloads[id], t.workloads[id]);
    assert SameWorkload(LiveRetire(s, id).workloads[id], Apply(t, Retired(id)).value.workloads[id]);
  }

  lemma AgedCovers(evidence: EvidenceSet, body: Body)
    ensures Covers(Aged(evidence).entries, body) == Covers(evidence.entries, body)
  {
    hide Declares;
    var aged := Aged(evidence).entries;
    if Covers(evidence.entries, body) {
      var i :| 0 <= i < |evidence.entries| && Declares(body, evidence.entries[i].scope);
      assert aged[i] in aged && Declares(body, aged[i].scope);
    }
    if Covers(aged, body) {
      var i :| 0 <= i < |aged| && Declares(body, aged[i].scope);
      assert evidence.entries[i] in evidence.entries && Declares(body, evidence.entries[i].scope);
    }
  }

  lemma SameCover(a: WorkloadState, b: WorkloadState, evidence: EvidenceSet)
    requires SameWorkload(a, b)
    ensures CoveredBy(a, evidence.entries) == CoveredBy(b, Aged(evidence).entries)
  {
    hide Covers;
    if a.generations != [] {
      var last := |a.generations| - 1;
      assert SameRecord(a.generations[last], b.generations[last]);
      AgedCovers(evidence, a.generations[last].contract.body);
    }
  }

  lemma SameWithEvidence(a: WorkloadState, b: WorkloadState, evidence: EvidenceSet)
    requires SameWorkload(a, b)
    ensures SameWorkload(WithEvidence(a, evidence), WithEvidence(b, Aged(evidence)))
    ensures a.retired ==> SameWorkload(a, WithEvidence(b, Aged(evidence)))
    ensures a.retired == b.retired
  {
    hide SameRecord;
    AgedGeneration(evidence);
  }

  lemma AttachReplays(s: State, t: State, evidence: EvidenceSet)
    requires SameView(s, t)
    ensures SameView(LiveAttach(s, evidence), Apply(t, EvidenceAttached(evidence)).value)
  {
    hide CoveredBy, Aged, SameWorkload, WithEvidence;
    var live, out := LiveAttach(s, evidence), Apply(t, EvidenceAttached(evidence)).value;
    forall id | id in s.workloads
      ensures SameWorkload(live.workloads[id], out.workloads[id])
    {
      SameCover(s.workloads[id], t.workloads[id], evidence);
      SameWithEvidence(s.workloads[id], t.workloads[id], evidence);
    }
  }

  lemma AgedGeneration(evidence: EvidenceSet)
    ensures Aged(evidence).generation == evidence.generation
  {
  }

  lemma InstallReplays(s: State, t: State, p: PolicyDocument)
    requires StateOk(s) && SameView(s, t)
    ensures StateOk(LiveInstall(s, p))
    ensures Apply(t, PolicyInstalled(p)).Some? && SameView(LiveInstall(s, p), Apply(t, PolicyInstalled(p)).value)
  {
    hide WorkloadOk, SameWorkload;
  }

  /** Some entry is about one of the scopes. */
  ghost predicate Touches(evidence: EvidenceSet, scopes: seq<Scope>) {
    exists i, j :: 0 <= i < |evidence.entries| && 0 <= j < |scopes| && evidence.entries[i].scope == scopes[j].name
  }

  /** Which workloads an attachment reaches: those that are not retired and whose latest generation declares a scope of
      one of its entries. They hold it; the others, and everything else about a workload, stay as they were. */
  lemma AttachReaches(s: State, evidence: EvidenceSet, id: Id)
    requires id in s.workloads && s.workloads[id].generations != []
    ensures id in LiveAttach(s, evidence).workloads
    ensures var w, after := s.workloads[id], LiveAttach(s, evidence).workloads[id];
      var reached := !w.retired && Touches(evidence, w.generations[|w.generations| - 1].contract.body.scopes);
      after == if reached then w.(evidence := Some(evidence), evidenceGeneration := evidence.generation) else w
  {
    var w := s.workloads[id];
    var scopes := w.generations[|w.generations| - 1].contract.body.scopes;
    if CoveredBy(w, evidence.entries) {
      var i :| 0 <= i < |evidence.entries| && Declares(w.generations[|w.generations| - 1].contract.body, evidence.entries[i].scope);
      var j :| 0 <= j < |scopes| && scopes[j].name == evidence.entries[i].scope;
    }
    if i, j :| 0 <= i < |evidence.entries| && 0 <= j < |scopes| && evidence.entries[i].scope == scopes[j].name {
      assert scopes[j] in scopes && evidence.entries[i] in evidence.entries;
      assert Declares(w.generations[|w.generations| - 1].contract.body, evidence.entries[i].scope);
    }
  }

  // ---------------------------------------------------------------------------
  // What the steps do, said without them
  // ---------------------------------------------------------------------------

  /** Nothing but this workload differs. */
  ghost predicate Elsewhere(s: State, t: State, id: Id) {
    && t.workloads.Keys == s.workloads.Keys + {id}
    && (forall other :: other in s.workloads && other != id ==> t.workloads[other] == s.workloads[other])
    && t == s.(workloads := t.workloads)
  }

  /** The workload is new and holds this contract as its only generation. */
  ghost predicate Begins(s: State, t: State, c: Contract, at: nat) {
    var id := c.body.workload.id;
    && Elsewhere(s, t, id) && id !in s.workloads
    && var w := t.workloads[id];
       && |w.generations| == 1
       && w.generations[0] == GenerationRecord(c.body.generation, c.digest, c.body.contractId, c, at, false, false)
       && w.name == c.body.workload.name && !w.retired && w.evidence.None?
  }

  /** The contract is one more generation; the others are superseded and otherwise as they were, evidence included. */
  ghost predicate Extends(s: State, t: State, c: Contract, at: nat) {
    var id := c.body.workload.id;
    && Elsewhere(s, t, id) && id in s.workloads
    && var v, w := s.workloads[id], t.workloads[id]; var n := |v.generations|;
       && |w.generations| == n + 1
       && w.generations[n] == GenerationRecord(c.body.generation, c.digest, c.body.contractId, c, at, false, false)
       && (forall k :: 0 <= k < n ==> w.generations[k] == v.generations[k].(superseded := true))
       && w.name == v.name && w.retired == v.retired
       && w.evidence == v.evidence && w.evidenceGeneration == v.evidenceGeneration
  }

  /** The workload and its generations are marked retired, and nothing else about them changes. */
  ghost predicate Ends(s: State, t: State, id: Id) {
    && Elsewhere(s, t, id) && id in s.workloads
    && var v, w := s.workloads[id], t.workloads[id];
       && w == v.(retired := true, generations := w.generations) && |w.generations| == |v.generations|
       && forall k :: 0 <= k < |v.generations| ==> w.generations[k] == v.generations[k].(retired := true)
  }

  /** The evidence is held by every workload that is not retired and whose latest generation declares a scope of one of
      its entries; the other workloads stay as they were, and the floor moves. */
  ghost predicate Reaches(s: State, t: State, evidence: EvidenceSet) {
    && t.workloads.Keys == s.workloads.Keys
    && t == s.(workloads := t.workloads, evidenceFloor := evidence.generation)
    && forall id :: id in s.workloads && s.workloads[id].generations != [] ==>
         var w := s.workloads[id];
         t.workloads[id] == if !w.retired && Touches(evidence, w.generations[|w.generations| - 1].contract.body.scopes)
                            then w.(evidence := Some(evidence), evidenceGeneration := evidence.generation) else w
  }

  lemma RegisterShows(s: State, c: Contract, at: nat)
    requires c.body.workload.id !in s.workloads
    ensures Begins(s, LiveRegister(s, c, at), c, at)
  {
  }

  lemma PublishShows(s: State, c: Contract, at: nat)
    requires c.body.workload.id in s.workloads
    ensures Extends(s, LivePublish(s, c, at), c, at)
  {
  }

  lemma RetireShows(s: State, id: Id)
    requires id in s.workloads
    ensures Ends(s, LiveRetire(s, id), id)
  {
  }

  lemma AttachShows(s: State, evidence: EvidenceSet)
    ensures Reaches(s, LiveAttach(s, evidence), evidence)
  {
    hide LiveAttach;
    AttachKeys(s, evidence);
    forall id | id in s.workloads && s.workloads[id].generations != []
      ensures var w := s.workloads[id];
        LiveAttach(s, evidence).workloads[id]
          == if !w.retired && Touches(evidence, w.generations[|w.generations| - 1].contract.body.scopes)
             then w.(evidence := Some(evidence), evidenceGeneration := evidence.generation) else w
    {
      AttachReaches(s, evidence, id);
    }
  }

  lemma AttachKeys(s: State, evidence: EvidenceSet)
    ensures var t := LiveAttach(s, evidence);
      t.workloads.Keys == s.workloads.Keys && t == s.(workloads := t.workloads, evidenceFloor := evidence.generation)
  {
  }

  /** Some workload, retired or not, declares a scope the evidence covers. */
  ghost predicate CoversSome(s: State, evidence: EvidenceSet) {
    exists id :: id in s.workloads && CoveredBy(s.workloads[id], evidence.entries)
  }

  /** The live floor always moves to the attached generation; the replayed one moves up, and only when something is
      covered. */
  lemma AttachFloors(s: State, t: State, evidence: EvidenceSet)
    requires SameView(s, t)
    ensures LiveAttach(s, evidence).evidenceFloor == evidence.generation
    ensures Apply(t, EvidenceAttached(evidence)).value.evidenceFloor
         == if CoversSome(s, evidence) && evidence.generation > t.evidenceFloor then evidence.generation else t.evidenceFloor
  {
    hide CoveredBy, Aged;
    AgedGeneration(evidence);
    forall id | id in s.workloads
      ensures CoveredBy(s.workloads[id], evidence.entries) == CoveredBy(t.workloads[id], Aged(evidence).entries)
    {
      assert SameWorkload(s.workloads[id], t.workloads[id]);
      SameCover(s.workloads[id], t.workloads[id], evidence);
    }
  }

  /** From equal floors an attachment leaves equal floors exactly when its generation is that floor, or it is above the
      floor and something is covered. */
  lemma FloorLags(s: State, t: State, evidence: EvidenceSet)
    requires SameView(s, t) && s.evidenceFloor == t.evidenceFloor
    ensures LiveAttach(s, evidence).evidenceFloor == Apply(t, EvidenceAttached(evidence)).value.evidenceFloor
       <==> evidence.generation == s.evidenceFloor || (evidence.generation > s.evidenceFloor && CoversSome(s, evidence))
  {
    hide SameView, LiveAttach, Apply, CoversSome;
    AttachFloors(s, t, evidence);
  }

  // ---------------------------------------------------------------------------
  // Whole runs
  // ---------------------------------------------------------------------------

  /** The steps an open runtime can take, with the conditions its checks establish. */
  datatype Step =
    | Register(contract: Contract, at: nat)
    | Publish(contract: Contract, at: nat)
    | Retire(workload: Id)
    | Attach(evidence: EvidenceSet)
    | Install(policy: PolicyDocument)

  ghost predicate Taken(s: State, step: Step, t: State) {
    match step
    case Register(c, at) => Registrable(s, c) && t == LiveRegister(s, c, at)
    case Publish(c, at) => Publishable(s, c) && t == LivePublish(s, c, at)
    case Retire(id) => id in s.workloads && !s.workloads[id].retired && t == LiveRetire(s, id)
    case Attach(evidence) => t == LiveAttach(s, evidence)
    case Install(p) => t == LiveInstall(s, p)
  }

  /** The later state of a workload keeps every generation; once retired, nothing about it changes. */
  ghost predicate Continues(a: WorkloadState, b: WorkloadState) {
    && |a.generations| <= |b.generations|
    && (forall k :: 0 <= k < |a.generations| ==> b.generations[k].contract == a.generations[k].contract)
    && (a.retired ==> b == a)
  }

  lemma StepKeeps(s: State, step: Step, t: State)
    requires StateOk(s) && Taken(s, step, t)
    ensures StateOk(t)
  {
    hide WorkloadOk, Registrable, Publishable, LiveRegister, LivePublish, LiveRetire, LiveAttach;
    match step
    case Register(c, at) => RegisterKeeps(s, c, at);
    case Publish(c, at) => PublishKeeps(s, c, at);
    case Retire(id) => RetireKeeps(s, id);
    case Attach(evidence) => AttachKeeps(s, evidence);
    case Install(p) =>
  }

  lemma StepContinues(s: State, step: Step, t: State, id: Id)
    requires Taken(s, step, t) && id in s.workloads
    ensures id in t.workloads && Continues(s.workloads[id], t.workloads[id])
  {
    hide CompatibleBodies, CoveredBy;
  }

  /** In every run: the generation chains hold in every state, and between any two states every workload keeps its
      generations, and a retired workload is frozen. */
  lemma {:induction false} RunKeeps(run: seq<State>, steps: seq<Step>, i: nat, j: nat, id: Id)
    requires |run| == |steps| + 1 && run[0] == EMPTY
    requires forall k :: 0 <= k < |steps| ==> Taken(run[k], steps[k], run[k + 1])
    requires i <= j < |run| && id in run[i].workloads
    ensures StateOk(run[j])
    ensures id in run[j].workloads && Continues(run[i].workloads[id], run[j].workloads[id])
    decreases j
  {
    hide Taken, StateOk;
    RunOk(run, steps, j);
    if i < j {
      RunKeeps(run, steps, i, j - 1, id);
      StepContinues(run[j - 1], steps[j - 1], run[j], id);
    }
  }

  lemma {:induction false} RunOk(run: seq<State>, steps: seq<Step>, j: nat)
    requires |run| == |steps| + 1 && run[0] == EMPTY
    requires forall k :: 0 <= k < |steps| ==> Taken(run[k], steps[k], run[k + 1])
    requires j < |run|
    ensures StateOk(run[j])
  {
    if j > 0 {
      hide Taken, StateOk;
      RunOk(run, steps, j - 1);
      StepKeeps(run[j - 1], steps[j - 1], run[j]);
    }
  }
}
