/** Where the replayed state differs from the live one, field by field and exactly. */
module Divergence {
  import opened Options
  import opened Contracts
  import opened Evaluation
  import opened Policy
  import opened States

  /** The event a step commits; its recorded time comes from another reading of the clock. */
  function EventOf(step: Step, recordedAt: nat): Event {
    match step
    case Register(c, _) => Registered(c, recordedAt)
    case Publish(c, _) => Published(c, recordedAt)
    case Retire(id) => Retired(id)
    case Attach(evidence) => EvidenceAttached(evidence)
    case Install(p) => PolicyInstalled(p)
  }

  /** One boot from an empty directory: the live states, and the replayed state of the journal after every step. */
  datatype Boot = Boot(live: seq<State>, steps: seq<Step>, replayed: seq<State>, times: seq<nat>) {
    ghost predicate StepOk(k: nat)
      requires k < |steps| && |live| == |replayed| == |steps| + 1 && |times| == |steps|
    {
      Taken(live[k], steps[k], live[k + 1]) && Apply(replayed[k], EventOf(steps[k], times[k])) == Some(replayed[k + 1])
    }

    ghost predicate Valid() {
      && |live| == |replayed| == |steps| + 1 && |times| == |steps|
      && live[0] == EMPTY && replayed[0] == EMPTY
      && forall k :: 0 <= k < |steps| ==> StepOk(k)
    }
  }

  // ---------------------------------------------------------------------------
  // What either side holds
  // ---------------------------------------------------------------------------

  function FirstName(w: WorkloadState): string
    requires w.generations != []
  {
    w.generations[0].contract.body.workload.name
  }

  function LastName(w: WorkloadState): string
    requires w.generations != []
  {
    w.generations[|w.generations| - 1].contract.body.workload.name
  }

  ghost predicate Stamp(w: WorkloadState) {
    w.evidenceGeneration == if w.evidence.None? then 0 else w.evidence.value.generation
  }

  /** The live name is the first generation's, the replayed one the last's; the replay retires no record. */
  ghost predicate Tracks(a: WorkloadState, b: WorkloadState) {
    && a.generations != [] && a.name == FirstName(a) && b.name == LastName(a)
    && (forall g :: g in b.generations ==> !g.retired)
    && Stamp(a) && Stamp(b)
  }

  ghost predicate AllTrack(s: State, t: State) {
    s.workloads.Keys == t.workloads.Keys && forall id :: id in s.workloads ==> Tracks(s.workloads[id], t.workloads[id])
  }

  lemma RegisterTracks(s: State, t: State, c: Contract, at: nat, recordedAt: nat)
    requires AllTrack(s, t) && Registrable(s, c)
    ensures Apply(t, Registered(c, recordedAt)).Some?
    ensures AllTrack(LiveRegister(s, c, at), Apply(t, Registered(c, recordedAt)).value)
  {
    assert Held(t, c.body.workload.id) == FRESH;
  }

  lemma PublishTracks(s: State, t: State, c: Contract, at: nat, recordedAt: nat)
    requires AllTrack(s, t) && Publishable(s, c) && Apply(t, Published(c, recordedAt)).Some?
    ensures AllTrack(LivePublish(s, c, at), Apply(t, Published(c, recordedAt)).value)
  {
    hide CompatibleBodies;
    var id := c.body.workload.id;
    assert Tracks(s.workloads[id], t.workloads[id]);
    var live, out := LivePublish(s, c, at), Apply(t, Published(c, recordedAt)).value;
    assert Tracks(live.workloads[id], out.workloads[id]);
  }

  lemma RetiredTracks(a: WorkloadState, b: WorkloadState)
    requires Tracks(a, b)
    ensures Tracks(a.(retired := true, generations := RetireAll(a.generations)), b.(retired := true))
  {
  }

  lemma RetireTracks(s: State, t: State, id: Id)
    requires AllTrack(s, t) && id in s.workloads
    ensures AllTrack(LiveRetire(s, id), Apply(t, Retired(id)).value)
  {
    hide Tracks, RetireAll;
    assert Tracks(s.workloads[id], t.workloads[id]);
    RetiredTracks(s.workloads[id], t.workloads[id]);
  }

  lemma AttachTracks(s: State, t: State, evidence: EvidenceSet)
    requires AllTrack(s, t)
    ensures AllTrack(LiveAttach(s, evidence), Apply(t, EvidenceAttached(evidence)).value)
  {
    hide CoveredBy, Tracks, WithEvidence, Aged;
    var live, out := LiveAttach(s, evidence), Apply(t, EvidenceAttached(evidence)).value;
    forall id | id in s.workloads
      ensures Tracks(live.workloads[id], out.workloads[id])
    {
      EvidenceTracks(s.workloads[id], t.workloads[id], evidence);
    }
  }

  lemma EvidenceTracks(a: WorkloadState, b: WorkloadState, evidence: EvidenceSet)
    requires Tracks(a, b)
    ensures Tracks(a, WithEvidence(b, Aged(evidence))) && Tracks(WithEvidence(a, evidence), b)
    ensures Tracks(WithEvidence(a, evidence), WithEvidence(b, Aged(evidence)))
  {
    AgedGeneration(evidence);
  }

  lemma StepTracks(s: State, t: State, step: Step, recordedAt: nat, u: State)
    requires StateOk(s) && SameView(s, t) && AllTrack(s, t) && Taken(s, step, u)
    ensures Apply(t, EventOf(step, recordedAt)).Some?
    ensures var v := Apply(t, EventOf(step, recordedAt)).value; StateOk(u) && SameView(u, v) && AllTrack(u, v)
  {
    hide StateOk, SameView, AllTrack, Registrable, Publishable, LiveRegister, LivePublish, LiveRetire, LiveAttach,
      LiveInstall,
      ApplyContract, ApplyEvidence;
    StepKeeps(s, step, u);
    match step
    case Register(c, at) =>
      RegisterReplays(s, t, c, recordedAt, at);
      RegisterTracks(s, t, c, at, recordedAt);
    case Publish(c, at) =>
      PublishReplays(s, t, c, recordedAt, at);
      PublishTracks(s, t, c, at, recordedAt);
    case Retire(id) =>
      RetireReplays(s, t, id);
      RetireTracks(s, t, id);
    case Attach(evidence) =>
      AttachReplays(s, t, evidence);
      AttachTracks(s, t, evidence);
    case Install(p) =>
      InstallReplays(s, t, p);
      InstallTracks(s, t, p);
  }

  lemma InstallTracks(s: State, t: State, p: PolicyDocument)
    requires AllTrack(s, t)
    ensures AllTrack(LiveInstall(s, p), Apply(t, PolicyInstalled(p)).value)
  {
    hide Tracks;
  }

  lemma {:induction false} BootTracks(b: Boot, n: nat)
    requires b.Valid() && n <= |b.steps|
    ensures StateOk(b.live[n]) && SameView(b.live[n], b.replayed[n]) && AllTrack(b.live[n], b.replayed[n])
  {
    if n > 0 {
      hide StateOk, SameView, AllTrack, Taken, Apply, EventOf;
      BootTracks(b, n - 1);
      assert b.StepOk(n - 1);
      StepTracks(b.live[n - 1], b.replayed[n - 1], b.steps[n - 1], b.times[n - 1], b.live[n]);
    }
  }

  // ---------------------------------------------------------------------------
  // Floors
  // ---------------------------------------------------------------------------

  /** The generation of the last attachment. */
  function LastAttached(steps: seq<Step>): nat {
    if steps == [] then 0
    else
      var last := steps[|steps| - 1];
      if last.Attach? then last.evidence.generation else LastAttached(steps[..|steps| - 1])
  }

  /** The highest generation attached while some workload was covered. */
  ghost function HighestCovering(b: Boot, n: nat): nat
    requires b.Valid() && n <= |b.steps|
  {
    if n == 0 then 0
    else
      var before, step := HighestCovering(b, n - 1), b.steps[n - 1];
      if step.Attach? && CoversSome(b.live[n - 1], step.evidence) && step.evidence.generation > before
      then step.evidence.generation else before
  }

  lemma {:induction false} BootFloors(b: Boot, n: nat)
    requires b.Valid() && n <= |b.steps|
    ensures b.live[n].evidenceFloor == LastAttached(b.steps[..n])
    ensures b.replayed[n].evidenceFloor == HighestCovering(b, n)
  {
    if n > 0 {
      hide CoversSome, SameView;
      BootFloors(b, n - 1);
      BootTracks(b, n - 1);
      assert b.StepOk(n - 1) && b.steps[..n][..n - 1] == b.steps[..n - 1];
      FloorStep(b.live[n - 1], b.replayed[n - 1], b.steps[n - 1], b.times[n - 1], b.live[n], b.replayed[n]);
    }
  }

  lemma FloorStep(s: State, t: State, step: Step, recordedAt: nat, u: State, v: State)
    requires SameView(s, t) && Taken(s, step, u) && Apply(t, EventOf(step, recordedAt)) == Some(v)
    ensures u.evidenceFloor == if step.Attach? then step.evidence.generation else s.evidenceFloor
    ensures v.evidenceFloor == if step.Attach? && CoversSome(s, step.evidence) && step.evidence.generation > t.evidenceFloor
                               then step.evidence.generation else t.evidenceFloor
  {
    hide CoversSome, SameView, Registrable, Publishable;
    if step.Attach? {
      AttachFloors(s, t, step.evidence);
    }
  }

  // ---------------------------------------------------------------------------
  // Evidence
  // ---------------------------------------------------------------------------

  /** Step k attaches evidence that covers the workload. */
  ghost predicate Reaches(b: Boot, id: Id, k: nat)
    requires b.Valid() && k < |b.steps|
  {
    b.steps[k].Attach? && id in b.live[k].workloads && CoveredBy(b.live[k].workloads[id], b.steps[k].evidence.entries)
  }

  /** The last attachment that covered the workload, retired or not. */
  ghost function LastCovering(b: Boot, id: Id, n: nat): Option<EvidenceSet>
    requires b.Valid() && n <= |b.steps|
  {
    if n == 0 then None
    else if Reaches(b, id, n - 1) then Some(b.steps[n - 1].evidence)
    else LastCovering(b, id, n - 1)
  }

  /** The last attachment that covered the workload before it was retired. */
  ghost function LastWhileActive(b: Boot, id: Id, n: nat): Option<EvidenceSet>
    requires b.Valid() && n <= |b.steps|
  {
    if n == 0 then None
    else if Reaches(b, id, n - 1) && !b.live[n - 1].workloads[id].retired then Some(b.steps[n - 1].evidence)
    else LastWhileActive(b, id, n - 1)
  }

  /** Replaying a step changes the evidence of a workload only when the step attaches evidence covering it. */
  lemma EvidenceStep(s: State, t: State, step: Step, recordedAt: nat, u: State, v: State, id: Id)
    requires SameView(s, t) && Taken(s, step, u) && Apply(t, EventOf(step, recordedAt)) == Some(v)
    ensures id in s.workloads ==> id in u.workloads && id in v.workloads
    ensures id in s.workloads ==>
      var covered := step.Attach? && CoveredBy(s.workloads[id], step.evidence.entries);
      && u.workloads[id].evidence == (if covered && !s.workloads[id].retired then Some(step.evidence) else s.workloads[id].evidence)
      && v.workloads[id].evidence == (if covered then Some(Aged(step.evidence)) else t.workloads[id].evidence)
    ensures id !in s.workloads && id in u.workloads ==> u.workloads[id].evidence.None? && id in v.workloads && v.workloads[id].evidence.None?
  {
    hide CoveredBy, CompatibleBodies, Aged, MarkBelow, MarkAll, RetireAll;
    if step.Attach? && id in s.workloads {
      assert SameWorkload(s.workloads[id], t.workloads[id]);
      SameCover(s.workloads[id], t.workloads[id], step.evidence);
    }
  }

  lemma {:induction false} BootEvidence(b: Boot, id: Id, n: nat)
    requires b.Valid() && n <= |b.steps|
    ensures id in b.live[n].workloads ==>
      && b.live[n].workloads[id].evidence == LastWhileActive(b, id, n)
      && id in b.replayed[n].workloads && b.replayed[n].workloads[id].evidence == AgedEvidence(LastCovering(b, id, n))
    ensures id !in b.live[n].workloads ==> LastCovering(b, id, n).None? && LastWhileActive(b, id, n).None?
  {
    if n > 0 {
      hide SameView, Taken, Apply, EventOf, CoveredBy, Aged, StateOk, AllTrack;
      BootEvidence(b, id, n - 1);
      BootTracks(b, n - 1);
      assert b.StepOk(n - 1);
      EvidenceStep(b.live[n - 1], b.replayed[n - 1], b.steps[n - 1], b.times[n - 1], b.live[n], b.replayed[n], id);
    }
  }

  // ---------------------------------------------------------------------------
  // When replay and live state agree
  // ---------------------------------------------------------------------------

  ghost predicate FlagsAgree(a: WorkloadState, b: WorkloadState) {
    |a.generations| == |b.generations| && forall k :: 0 <= k < |a.generations| ==> a.generations[k].retired == b.generations[k].retired
  }

  ghost predicate EvidenceAgrees(a: WorkloadState, b: WorkloadState) {
    b.evidence == AgedEvidence(a.evidence) && b.evidenceGeneration == a.evidenceGeneration
  }

  lemma AgedAlike(x: Option<EvidenceSet>, y: Option<EvidenceSet>)
    requires AgedEvidence(x) == AgedEvidence(y)
    ensures (if x.None? then 0 else x.value.generation) == (if y.None? then 0 else y.value.generation)
  {
  }

  lemma TracksFlags(id: Id, a: WorkloadState, b: WorkloadState)
    requires WorkloadOk(id, a) && SameWorkload(a, b) && Tracks(a, b)
    ensures FlagsAgree(a, b) <==> !a.retired
  {
    hide ChainOk, SameRecord;
    assert a.generations[0].retired == a.retired;
    assert b.generations[0] in b.generations;
  }

  /** Field by field, for a workload in any state of a boot: the display name agrees exactly when the latest generation
      kept the first one's name; the flags of the generations agree exactly when the workload is not retired; the
      evidence agrees exactly when the last attachment covering the workload says what the last one before its
      retirement said. */
  lemma FieldsAgree(b: Boot, n: nat, id: Id)
    requires b.Valid() && n <= |b.steps| && id in b.live[n].workloads
    ensures id in b.replayed[n].workloads && b.live[n].workloads[id].generations != []
    ensures var w, v := b.live[n].workloads[id], b.replayed[n].workloads[id];
      && (w.name == v.name <==> FirstName(w) == LastName(w))
      && (FlagsAgree(w, v) <==> !w.retired)
      && (EvidenceAgrees(w, v) <==> AgedEvidence(LastWhileActive(b, id, n)) == AgedEvidence(LastCovering(b, id, n)))
  {
    hide SameWorkload, WorkloadOk, FlagsAgree, Aged;
    BootTracks(b, n);
    BootEvidence(b, id, n);
    var w, v := b.live[n].workloads[id], b.replayed[n].workloads[id];
    assert WorkloadOk(id, w) && SameWorkload(w, v) && Tracks(w, v);
    TracksFlags(id, w, v);
    var active, covering := LastWhileActive(b, id, n), LastCovering(b, id, n);
    if AgedEvidence(active) == AgedEvidence(covering) {
      AgedAlike(active, covering);
    }
    AgedStamp(covering);
  }

  lemma AgedStamp(x: Option<EvidenceSet>)
    ensures x.Some? ==> AgedEvidence(x) == Some(Aged(x.value)) && Aged(x.value).generation == x.value.generation
  {
  }

  /** The floors agree exactly when the last attachment has the highest generation of those that covered something. */
  lemma FloorsAgree(b: Boot, n: nat)
    requires b.Valid() && n <= |b.steps|
    ensures b.live[n].evidenceFloor == b.replayed[n].evidenceFloor <==> LastAttached(b.steps[..n]) == HighestCovering(b, n)
  {
    BootFloors(b, n);
  }

  /** The replayed workload is the live one, up to the recorded times and the aging of evidence. */
  ghost predicate FullyAlike(a: WorkloadState, b: WorkloadState) {
    && b == a.(generations := b.generations, evidence := AgedEvidence(a.evidence))
    && |a.generations| == |b.generations|
    && forall k :: 0 <= k < |a.generations| ==> b.generations[k] == a.generations[k].(recordedAt := b.generations[k].recordedAt)
  }

  ghost predicate Equal(live: State, replayed: State) {
    && replayed == live.(workloads := replayed.workloads)
    && live.workloads.Keys == replayed.workloads.Keys
    && forall id :: id in live.workloads ==> FullyAlike(live.workloads[id], replayed.workloads[id])
  }

  lemma AlikeExactly(id: Id, a: WorkloadState, b: WorkloadState)
    requires WorkloadOk(id, a) && SameWorkload(a, b) && Tracks(a, b)
    ensures FullyAlike(a, b) <==> !a.retired && FirstName(a) == LastName(a)
  {
    hide ChainOk;
    TracksFlags(id, a, b);
    if !a.retired {
      forall k | 0 <= k < |a.generations|
        ensures b.generations[k] == a.generations[k].(recordedAt := b.generations[k].recordedAt)
      {
        assert SameRecord(a.generations[k], b.generations[k]) && b.generations[k] in b.generations;
      }
    }
  }

  /** Everything agrees, up to recorded times and aging, exactly when no workload is retired or renamed and the last
      attachment has the highest generation of those that covered something. */
  lemma LiveIsReplay(b: Boot, n: nat)
    requires b.Valid() && n <= |b.steps|
    ensures Equal(b.live[n], b.replayed[n])
       <==> && (forall id :: id in b.live[n].workloads ==>
                  && !b.live[n].workloads[id].retired
                  && b.live[n].workloads[id].generations != []
                  && FirstName(b.live[n].workloads[id]) == LastName(b.live[n].workloads[id]))
            && LastAttached(b.steps[..n]) == HighestCovering(b, n)
  {
    hide WorkloadOk, SameWorkload, FullyAlike;
    BootTracks(b, n);
    FloorsAgree(b, n);
    var s, t := b.live[n], b.replayed[n];
    forall id | id in s.workloads
      ensures s.workloads[id].generations != []
      ensures FullyAlike(s.workloads[id], t.workloads[id])
         <==> !s.workloads[id].retired && FirstName(s.workloads[id]) == LastName(s.workloads[id])
    {
      assert WorkloadOk(id, s.workloads[id]) && SameWorkload(s.workloads[id], t.workloads[id]);
      assert Tracks(s.workloads[id], t.workloads[id]);
      AlikeExactly(id, s.workloads[id], t.workloads[id]);
    }
  }

  // ---------------------------------------------------------------------------
  // A boot for every kind of difference
  // ---------------------------------------------------------------------------

  const EDGE: Scope := Scope("edge", false, 0, "")

  const FLOOR: Requirement := Requirement("", "edge", MinBandwidth, Required, true, 10.0, 8.0, "", "", [], [], "")

  function Sample(generation: nat, name: string): Contract
    requires generation >= 1
  {
    Contract(Body(1, Workload("w", name, 1), "", generation, 0, 1, 0, 0, "", [EDGE], [FLOOR]), "",
             Envelope("publisher", 1, "", "", 0), generation - 1, "")
  }

  function Observed(generation: nat): EvidenceSet {
    EvidenceSet("", generation, 1, "publisher", 0,
                [Entry("edge", "", "publisher", 1, "boot", 1, 1, NOTHING.(minBandwidth := Some(12.0)), Current)])
  }

  const NEW: Boot := Boot([EMPTY], [], [EMPTY], [])

  function Last(b: Boot): State {
    if b.live == [] then EMPTY else b.live[|b.live| - 1]
  }

  /** The boot with one more step. */
  function Then(b: Boot, step: Step, u: State): Boot {
    var t := if b.replayed == [] then EMPTY else b.replayed[|b.replayed| - 1];
    Boot(b.live + [u], b.steps + [step], b.replayed + [OrElse(Apply(t, EventOf(step, 0)), EMPTY)], b.times + [0])
  }

  lemma ThenValid(b: Boot, step: Step, u: State)
    requires b.Valid() && Taken(Last(b), step, u)
    ensures Then(b, step, u).Valid() && Last(Then(b, step, u)) == u
    ensures forall k :: 0 <= k <= |b.steps| ==> Then(b, step, u).live[k] == b.live[k]
  {
    hide StateOk, SameView, AllTrack, Taken, Apply, EventOf;
    var n := |b.steps|;
    var c := Then(b, step, u);
    BootTracks(b, n);
    StepTracks(b.live[n], b.replayed[n], step, 0, u);
    forall k | 0 <= k < |c.steps|
      ensures c.StepOk(k)
    {
      if k < n {
        assert b.StepOk(k);
      }
    }
  }

  /** The first generation of the sample is registered. */
  lemma Registration(name: string) returns (b: Boot)
    ensures b.Valid() && |b.steps| == 1 && b.steps[0] == Register(Sample(1, name), 0) && b.live[0] == EMPTY
    ensures b.live[1] == Last(b) == LiveRegister(EMPTY, Sample(1, name), 0)
  {
    b := Then(NEW, Register(Sample(1, name), 0), LiveRegister(EMPTY, Sample(1, name), 0));
    ThenValid(NEW, Register(Sample(1, name), 0), LiveRegister(EMPTY, Sample(1, name), 0));
  }

  lemma SampleCompatible(name: string, other: string)
    ensures CompatibleBodies(Sample(1, name).body, Sample(2, other).body)
  {
    assert [FLOOR][..0] == [];
    assert Lookup([FLOOR], FLOOR.CompositeKey()) == Some(FLOOR);
  }

  /** A publication that renames its workload: the live state keeps the old name. */
  lemma NameDiffers() returns (b: Boot)
    ensures b.Valid() && |b.steps| == 2 && "w" in b.live[2].workloads && "w" in b.replayed[2].workloads
    ensures b.live[2].workloads["w"].name != b.replayed[2].workloads["w"].name
  {
    b := Registration("old");
    var c := Sample(2, "new");
    SampleCompatible("old", "new");
    var u := LivePublish(Last(b), c, 0);
    ThenValid(b, Publish(c, 0), u);
    b := Then(b, Publish(c, 0), u);
    FieldsAgree(b, 2, "w");
    assert FirstName(u.workloads["w"]) == "old" && LastName(u.workloads["w"]) == "new";
    assert "old"[0] != "new"[0];
  }

  /** A retirement: the replay does not mark the generations. */
  lemma FlagDiffers() returns (b: Boot)
    ensures b.Valid() && |b.steps| == 2 && "w" in b.live[2].workloads && "w" in b.replayed[2].workloads
    ensures !FlagsAgree(b.live[2].workloads["w"], b.replayed[2].workloads["w"])
  {
    b := Registration("w");
    var u := LiveRetire(Last(b), "w");
    ThenValid(b, Retire("w"), u);
    b := Then(b, Retire("w"), u);
    FieldsAgree(b, 2, "w");
  }

  lemma ObservedCovers(w: WorkloadState, name: string, generation: nat)
    requires w.generations != [] && w.generations[|w.generations| - 1].contract == Sample(1, name)
    ensures CoveredBy(w, Observed(generation).entries)
  {
    var body := Sample(1, name).body;
    assert EDGE in body.scopes;
    assert Observed(generation).entries[0] in Observed(generation).entries && Declares(body, "edge");
  }

  lemma AttachedThenRetired() returns (b: Boot)
    ensures b.Valid() && b.steps == [Register(Sample(1, "w"), 0), Attach(Observed(1)), Retire("w")] && |b.live| == 4
    ensures "w" in b.live[1].workloads && CoveredBy(b.live[1].workloads["w"], Observed(1).entries)
    ensures !b.live[1].workloads["w"].retired
    ensures "w" in b.live[3].workloads && CoveredBy(b.live[3].workloads["w"], Observed(2).entries)
    ensures b.live[3].workloads["w"].retired
  {
    hide CoveredBy;
    b := Registration("w");
    var s1 := Last(b);
    ObservedCovers(s1.workloads["w"], "w", 1);
    var s2 := LiveAttach(s1, Observed(1));
    ThenValid(b, Attach(Observed(1)), s2);
    b := Then(b, Attach(Observed(1)), s2);
    var s3 := LiveRetire(s2, "w");
    ThenValid(b, Retire("w"), s3);
    b := Then(b, Retire("w"), s3);
    ObservedCovers(s3.workloads["w"], "w", 2);
  }

  /** Evidence attached before and after a retirement: the replay also takes the later one. */
  lemma EvidenceDiffers() returns (b: Boot)
    ensures b.Valid() && |b.steps| == 4 && "w" in b.live[4].workloads && "w" in b.replayed[4].workloads
    ensures !EvidenceAgrees(b.live[4].workloads["w"], b.replayed[4].workloads["w"])
  {
    b := AttachedThenRetired();
    var s3 := Last(b);
    var s4 := LiveAttach(s3, Observed(2));
    ThenValid(b, Attach(Observed(2)), s4);
    hide CoveredBy, LiveRetire, LiveRegister, Sample, Observed;
    b := Then(b, Attach(Observed(2)), s4);
    assert b.steps == [Register(Sample(1, "w"), 0), Attach(Observed(1)), Retire("w"), Attach(Observed(2))];
    EvidenceOfFour(b);
    FieldsAgree(b, 4, "w");
  }

  lemma EvidenceOfFour(b: Boot)
    requires b.Valid() && b.steps == [Register(Sample(1, "w"), 0), Attach(Observed(1)), Retire("w"), Attach(Observed(2))]
    requires "w" in b.live[1].workloads && CoveredBy(b.live[1].workloads["w"], Observed(1).entries) && !b.live[1].workloads["w"].retired
    requires "w" in b.live[3].workloads && CoveredBy(b.live[3].workloads["w"], Observed(2).entries) && b.live[3].workloads["w"].retired
    ensures AgedEvidence(LastWhileActive(b, "w", 4)) != AgedEvidence(LastCovering(b, "w", 4))
  {
    hide CoveredBy, Taken, Apply;
    assert Reaches(b, "w", 1) && !Reaches(b, "w", 2) && Reaches(b, "w", 3);
    assert LastWhileActive(b, "w", 2) == Some(Observed(1)) == LastWhileActive(b, "w", 3) == LastWhileActive(b, "w", 4);
    assert LastCovering(b, "w", 4) == Some(Observed(2));
    AgedStamp(Some(Observed(1)));
    AgedStamp(Some(Observed(2)));
  }

  /** An attachment that covers nothing: only the live floor moves. */
  lemma FloorDiffers() returns (b: Boot)
    ensures b.Valid() && |b.steps| == 1 && b.live[1].evidenceFloor != b.replayed[1].evidenceFloor
  {
    var u := LiveAttach(EMPTY, Observed(1));
    ThenValid(NEW, Attach(Observed(1)), u);
    b := Then(NEW, Attach(Observed(1)), u);
    FloorsAgree(b, 1);
    assert b.steps[..1] == b.steps && HighestCovering(b, 0) == 0;
    assert !CoversSome(b.live[0], Observed(1));
  }
}
