/** The coordinator runtime: checked operations over a journaled state, and opening from a journal. */
module Runtime {
  import opened Options
  import opened Bytes
  import opened Ordering
  import opened Contracts
  import opened Evaluation
  import opened Policy
  import opened States
  import Documents
  import Frames
  import Journal
  import Ledgers

  datatype Domain = Registration | Publication

  /** What the runtime asks of other components. */
  datatype Checks = Checks(
    validate: Contract -> bool,
    verify: (Domain, Contract) -> bool,
    policyAllows: (PolicyDocument, Body) -> bool,
    validatePolicy: PolicyDocument -> bool,
    trusted: Id -> bool,
    printing: Documents.Printing)

  /** The bytes of an event, and the reader of records. The representable events are those whose numbers are machine
      numbers and whose contract or policy document reads back as itself. */
  datatype Codec = Codec(payload: Event -> Bytes, decode: (nat, Bytes) -> Option<Event>, representable: Event -> bool)

  datatype Code =
    | InvalidContract | GenerationGap | StaleGeneration | SignatureRefused | UnknownPolicy | PolicyViolated
    | DuplicateWorkload | UnknownWorkload | ContractRetired | ReplayRejected | IncompatibleMajor | NotContractOwner
    | NotCompatible | RetentionExceeded | NoEvidenceGiven | EvidenceBackwards | PublisherNotTrusted | InvalidPolicy
    | NotDurable

  datatype Result = Accepted(sequence: nat) | Rejected(code: Code)

  // ---------------------------------------------------------------------------
  // Records
  // ---------------------------------------------------------------------------

  /** The type a record is written under. */
  function KindOf(e: Event): (kind: nat)
    ensures kind < 0x1_0000
  {
    match e
    case Registered(_, _) => 2
    case Published(_, _) => 3
    case Retired(_) => 4
    case EvidenceAttached(_) => 5
    case PolicyInstalled(_) => 6
  }

  /** What reading the record of an event gives: evidence goes through its document, the rest comes back as it was. */
  function Reread(p: Documents.Printing, e: Event): Option<Event> {
    if !e.EvidenceAttached? then Some(e)
    else
      match Documents.ReadBack(p, e.evidence)
      case None => None
      case Some(evidence) => Some(EvidenceAttached(evidence))
  }

  ghost predicate FaithfulAt(codec: Codec, p: Documents.Printing, e: Event) {
    codec.decode(KindOf(e), codec.payload(e)) == Reread(p, e)
  }

  /** The codec of records does to every representable event what Reread says. */
  ghost predicate Faithful(codec: Codec, p: Documents.Printing) {
    forall e :: codec.representable(e) ==> FaithfulAt(codec, p, e)
  }

  ghost predicate AllRepresentable(codec: Codec, events: seq<Event>) {
    forall e :: e in events ==> codec.representable(e)
  }

  ghost predicate AllReadable(p: Documents.Printing, events: seq<Event>) {
    forall e :: e in events ==> Reread(p, e).Some?
  }

  ghost predicate AllUnchanged(p: Documents.Printing, events: seq<Event>) {
    forall e :: e in events ==> Reread(p, e) == Some(e)
  }

  /** A codec that numbers the events of a list. */
  function Numbering(p: Documents.Printing, pool: seq<Event>): Codec {
    Codec(e => seq(Place(pool, e), _ => 0),
          (kind, bytes) => if |bytes| < |pool| && KindOf(pool[|bytes|]) == kind then Reread(p, pool[|bytes|]) else None,
          e => e in pool)
  }

  function Place(pool: seq<Event>, e: Event): (i: nat)
    ensures e in pool ==> i < |pool| && pool[i] == e
  {
    if pool == [] || pool[0] == e then 0 else 1 + Place(pool[1..], e)
  }

  /** Whatever events a run commits, there is a faithful codec that represents them all. */
  lemma FaithfulCodecExists(p: Documents.Printing, pool: seq<Event>)
    ensures Faithful(Numbering(p, pool), p) && AllRepresentable(Numbering(p, pool), pool)
  {
    hide Reread;
    var codec := Numbering(p, pool);
    forall e | codec.representable(e)
      ensures FaithfulAt(codec, p, e)
    {
      assert |codec.payload(e)| == Place(pool, e);
    }
  }

  function EntryOf(codec: Codec, e: Event): Frames.Entry {
    Frames.Entry(KindOf(e), codec.payload(e))
  }

  function EntriesOf(codec: Codec, events: seq<Event>): (out: seq<Frames.Entry>)
    ensures |out| == |events|
  {
    if events == [] then [] else EntriesOf(codec, events[..|events| - 1]) + [EntryOf(codec, events[|events| - 1])]
  }

  lemma EntriesOfOne(codec: Codec, events: seq<Event>, e: Event)
    ensures EntriesOf(codec, events + [e]) == EntriesOf(codec, events) + [EntryOf(codec, e)]
  {
    assert (events + [e])[..|events|] == events;
  }

  /** What opening makes of the records: decode each and apply it, in order; no state when either fails. */
  function Restored(codec: Codec, records: seq<Frames.Record>): Option<State> {
    if records == [] then Some(EMPTY)
    else
      var last := records[|records| - 1];
      var before := Restored(codec, records[..|records| - 1]);
      var event := codec.decode(last.kind, last.payload);
      if before.None? || event.None? then None else Apply(before.value, event.value)
  }

  /** What a journal of these events recovers to: each read back and applied, in order. */
  function Recovery(p: Documents.Printing, events: seq<Event>): Option<State> {
    if events == [] then Some(EMPTY)
    else
      var before := Recovery(p, events[..|events| - 1]);
      var event := Reread(p, events[|events| - 1]);
      if before.None? || event.None? then None else Apply(before.value, event.value)
  }

  /** Records that hold the entries of representable events restore exactly the recovery of those events. */
  lemma {:induction false} RestoredIsRecovery(codec: Codec, p: Documents.Printing, records: seq<Frames.Record>, events: seq<Event>)
    requires Faithful(codec, p) && AllRepresentable(codec, events) && |records| == |events|
    requires forall i :: 0 <= i < |records| ==>
      records[i].kind == KindOf(events[i]) && records[i].payload == codec.payload(events[i])
    ensures Restored(codec, records) == Recovery(p, events)
  {
    hide Apply, Reread, KindOf;
    if events != [] {
      var n := |events| - 1;
      RestoredIsRecovery(codec, p, records[..n], events[..n]);
      assert events[n] in events && FaithfulAt(codec, p, events[n]);
    }
  }

  /** The same state up to the content of its evidence. */
  ghost predicate SameButEvidence(a: State, b: State) {
    && a == b.(workloads := a.workloads) && a.workloads.Keys == b.workloads.Keys
    && forall id :: id in a.workloads ==> b.workloads[id] == a.workloads[id].(evidence := b.workloads[id].evidence)
  }

  lemma SameScopesCover(a: seq<Entry>, b: seq<Entry>, body: Body)
    requires |a| == |b| && forall i :: 0 <= i < |a| ==> a[i].scope == b[i].scope
    ensures Covers(a, body) <==> Covers(b, body)
  {
    hide Declares;
    if Covers(a, body) {
      var i :| 0 <= i < |a| && Declares(body, a[i].scope);
      assert b[i] in b && Declares(body, b[i].scope);
    }
    if Covers(b, body) {
      var i :| 0 <= i < |b| && Declares(body, b[i].scope);
      assert a[i] in a && Declares(body, a[i].scope);
    }
  }

  lemma SameCovering(a: WorkloadState, b: WorkloadState, x: EvidenceSet, y: EvidenceSet)
    requires a.generations == b.generations && |x.entries| == |y.entries|
    requires forall i :: 0 <= i < |x.entries| ==> x.entries[i].scope == y.entries[i].scope
    ensures CoveredBy(a, Aged(x).entries) == CoveredBy(b, Aged(y).entries)
  {
    hide Covers;
    if a.generations != [] {
      SameScopesCover(Aged(x).entries, Aged(y).entries, a.generations[|a.generations| - 1].contract.body);
    }
  }

  lemma ApplyAlike(a: State, b: State, e: Event)
    requires SameButEvidence(a, b) && !e.EvidenceAttached?
    ensures Apply(a, e).Some? <==> Apply(b, e).Some?
    ensures Apply(a, e).Some? ==> SameButEvidence(Apply(a, e).value, Apply(b, e).value)
  {
    hide MarkBelow, RecordFor;
  }

  lemma AttachAlike(a: State, b: State, x: EvidenceSet, y: EvidenceSet)
    requires SameButEvidence(a, b) && |x.entries| == |y.entries| && x.generation == y.generation
    requires forall i :: 0 <= i < |x.entries| ==> x.entries[i].scope == y.entries[i].scope
    ensures SameButEvidence(ApplyEvidence(a, x), ApplyEvidence(b, y))
  {
    hide CoveredBy;
    forall id | id in a.workloads
      ensures CoveredBy(a.workloads[id], Aged(x).entries) == CoveredBy(b.workloads[id], Aged(y).entries)
    {
      SameCovering(a.workloads[id], b.workloads[id], x, y);
    }
  }

  lemma NothingRecovered(p: Documents.Printing)
    ensures Recovery(p, []) == Replay([]) == Some(EMPTY) && SameButEvidence(EMPTY, EMPTY)
    ensures AllReadable(p, []) && AllUnchanged(p, [])
  {
  }

  lemma LastEvent(p: Documents.Printing, events: seq<Event>)
    requires events != []
    ensures var n := |events| - 1; var before, e := events[..n], events[n];
      && Replay(events) == (if Replay(before).None? then None else Apply(Replay(before).value, e))
      && Recovery(p, events) == (if Recovery(p, before).None? || Reread(p, e).None? then None
                                 else Apply(Recovery(p, before).value, Reread(p, e).value))
      && (AllReadable(p, events) <==> AllReadable(p, before) && Reread(p, e).Some?)
      && (AllUnchanged(p, events) <==> AllUnchanged(p, before) && Reread(p, e) == Some(e))
  {
    hide Apply, Reread;
    assert events == events[..|events| - 1] + [events[|events| - 1]];
  }

  /** Recovery succeeds exactly when every event can be read back; then only the content of evidence can differ from
      the replay of what was written, and nothing does when every event reads back as itself. */
  lemma {:induction false} RecoveryExact(p: Documents.Printing, events: seq<Event>)
    requires Replay(events).Some?
    ensures Recovery(p, events).Some? <==> AllReadable(p, events)
    ensures Recovery(p, events).Some? ==> SameButEvidence(Replay(events).value, Recovery(p, events).value)
    ensures AllUnchanged(p, events) ==> Recovery(p, events) == Replay(events)
  {
    if events == [] {
      NothingRecovered(p);
    } else {
      hide *;
      var n := |events| - 1;
      LastEvent(p, events);
      RecoveryExact(p, events[..n]);
      if Recovery(p, events[..n]).Some? && Reread(p, events[n]).Some? {
        RereadAlike(p, Replay(events[..n]).value, Recovery(p, events[..n]).value, events[n]);
      }
    }
  }

  lemma RereadAlike(p: Documents.Printing, a: State, b: State, e: Event)
    requires SameButEvidence(a, b) && Reread(p, e).Some?
    ensures Apply(a, e).Some? <==> Apply(b, Reread(p, e).value).Some?
    ensures Apply(a, e).Some? ==> SameButEvidence(Apply(a, e).value, Apply(b, Reread(p, e).value).value)
  {
    hide SameButEvidence, ApplyContract, ApplyEvidence, Documents.ReadBack;
    if e.EvidenceAttached? {
      Documents.ReadBackKeeps(p, e.evidence);
      AttachAlike(a, b, e.evidence, Reread(p, e).value.evidence);
    } else {
      ApplyAlike(a, b, e);
    }
  }

  lemma HistoriesCarryOver(live: State, a: State, b: State)
    requires SameView(live, a) && SameButEvidence(a, b)
    ensures SameHistories(live, b)
  {
    hide SameRecord;
  }

  lemma {:induction false} EntriesAt(codec: Codec, events: seq<Event>, i: nat)
    requires i < |events|
    ensures EntriesOf(codec, events)[i] == EntryOf(codec, events[i])
  {
    if i < |events| - 1 {
      EntriesAt(codec, events[..|events| - 1], i);
    }
  }

  lemma {:induction false} EntriesPrefix(codec: Codec, events: seq<Event>, n: nat)
    requires n <= |events|
    ensures EntriesOf(codec, events)[..n] == EntriesOf(codec, events[..n])
  {
    if n < |events| {
      EntriesPrefix(codec, events[..|events| - 1], n);
      assert events[..|events| - 1][..n] == events[..n];
      assert EntriesOf(codec, events)[..n] == EntriesOf(codec, events[..|events| - 1])[..n];
    } else {
      assert events[..n] == events;
      assert EntriesOf(codec, events)[..n] == EntriesOf(codec, events);
    }
  }

  /** The records of an encoded journal restore its recovery. */
  lemma JournalRestores(codec: Codec, p: Documents.Printing, hash: Frames.Hash, events: seq<Event>)
    requires Faithful(codec, p) && AllRepresentable(codec, events)
    ensures Restored(codec, Journal.RecordsOf(hash, Journal.START, EntriesOf(codec, events))) == Recovery(p, events)
  {
    hide Faithful, AllRepresentable, Recovery, Restored, KindOf;
    var entries := EntriesOf(codec, events);
    var records := Journal.RecordsOf(hash, Journal.START, entries);
    forall i | 0 <= i < |records|
      ensures records[i].kind == KindOf(events[i]) && records[i].payload == codec.payload(events[i])
    {
      Journal.RecordsChain(hash, Journal.START, entries, i);
      EntriesAt(codec, events, i);
    }
    RestoredIsRecovery(codec, p, records, events);
  }

  // ---------------------------------------------------------------------------
  // When an operation refuses
  // ---------------------------------------------------------------------------

  function PolicyRefusal(checks: Checks, s: State, c: Contract): Option<Code> {
    if s.policy.None? then None
    else if c.body.policyGeneration != s.policyGeneration then Some(UnknownPolicy)
    else if !checks.policyAllows(s.policy.value, c.body) then Some(PolicyViolated)
    else None
  }

  function RegisterRefusal(checks: Checks, s: State, c: Contract): Option<Code> {
    if !checks.validate(c) then Some(InvalidContract)
    else if c.body.generation != 1 then Some(GenerationGap)
    else if c.supersedes != 0 then Some(Code.StaleGeneration)
    else if !checks.verify(Registration, c) then Some(SignatureRefused)
    else if PolicyRefusal(checks, s, c).Some? then PolicyRefusal(checks, s, c)
    else if c.body.workload.id in s.workloads then Some(DuplicateWorkload)
    else None
  }

  ghost function PublishRefusal(checks: Checks, s: State, c: Contract): Option<Code>
    requires Nonempty(s)
  {
    var id := c.body.workload.id;
    if !checks.validate(c) then Some(InvalidContract)
    else if id !in s.workloads then Some(UnknownWorkload)
    else if s.workloads[id].retired then Some(ContractRetired)
    else if c.body.generation < s.workloads[id].contractGeneration + 1 then Some(ReplayRejected)
    else if c.body.generation > s.workloads[id].contractGeneration + 1 then Some(GenerationGap)
    else if c.supersedes == 0 || c.supersedes != s.workloads[id].contractGeneration || c.supersedesDigest != s.workloads[id].digest
    then Some(Code.StaleGeneration)
    else
      var last := s.workloads[id].generations[|s.workloads[id].generations| - 1].contract;
      if c.body.major != last.body.major then Some(Code.IncompatibleMajor)
      else if !checks.verify(Publication, c) then Some(SignatureRefused)
      else if last.envelope.publisher != c.envelope.publisher then Some(NotContractOwner)
      else if PolicyRefusal(checks, s, c).Some? then PolicyRefusal(checks, s, c)
      else if !CompatibleBodies(last.body, c.body) then Some(NotCompatible)
      else if |s.workloads[id].generations| >= MAX_RETAINED_GENERATIONS then Some(RetentionExceeded)
      else None
  }

  function RetireRefusal(s: State, id: Id): Option<Code> {
    if id !in s.workloads then Some(UnknownWorkload)
    else if s.workloads[id].retired then Some(ContractRetired)
    else None
  }

  function InstallRefusal(checks: Checks, s: State, p: PolicyDocument): Option<Code> {
    if !checks.validatePolicy(p) then Some(InvalidPolicy)
    else if s.policy.Some? && p.generation < s.policyGeneration then Some(Code.StaleGeneration)
    else if s.policy.Some? && p.generation == s.policyGeneration && p.policyId != s.policy.value.policyId then Some(DuplicateWorkload)
    else None
  }

  function AttachRefusal(checks: Checks, s: State, evidence: EvidenceSet): Option<Code> {
    if evidence.entries == [] then Some(NoEvidenceGiven)
    else if evidence.generation != 0 && evidence.generation <= s.evidenceFloor then Some(EvidenceBackwards)
    else if !checks.trusted(evidence.publisher) then Some(PublisherNotTrusted)
    else None
  }

  /** Every entry is stamped with this incarnation and epoch. */
  function Prepared(submitted: EvidenceSet, incarnation: Id, epoch: nat, now: nat): EvidenceSet {
    submitted.(epoch := epoch, entries := seq(|submitted.entries|, i requires 0 <= i < |submitted.entries| =>
      submitted.entries[i].(capturedBy := incarnation, epoch := epoch, publisher := submitted.publisher, freshness := Current,
        producedAt := if submitted.entries[i].producedAt == 0 then now else submitted.entries[i].producedAt)))
  }

  /** The identity is derived from the stamped set while that set still carries the identity it was submitted with. */
  function Stamped(checks: Checks, submitted: EvidenceSet, incarnation: Id, epoch: nat, now: nat): EvidenceSet {
    var stamped := Prepared(submitted, incarnation, epoch, now);
    stamped.(evidenceId := checks.printing.identity(stamped))
  }

  /** What was stamped in this boot stays current while the boot lasts and its age allows. */
  lemma StampedStaysCurrent(checks: Checks, submitted: EvidenceSet, incarnation: Id, epoch: nat, now: nat, i: nat,
                            later: nat, maxAge: nat)
    requires i < |submitted.entries|
    ensures var stamped := Stamped(checks, submitted, incarnation, epoch, now);
      && |stamped.entries| == |submitted.entries| && stamped.generation == submitted.generation
      && var e := stamped.entries[i];
         && e.scope == submitted.entries[i].scope && e.candidate == submitted.entries[i].candidate
         && e.publisher == stamped.publisher == submitted.publisher && e.freshness == Current
         && Freshened(e, stamped.epoch, incarnation, later, maxAge)
              == if maxAge == 0 || later <= e.producedAt + maxAge then Current else Expired
  {
    FreshnessIs(Prepared(submitted, incarnation, epoch, now).entries[i], epoch, incarnation, later, maxAge);
  }

  /** What a submitted set must look like so that its record can be read back after a restart. */
  predicate Restorable(p: Documents.Printing, submitted: EvidenceSet, epoch: nat, now: nat) {
    && submitted.evidenceId == NoId()
    && 1 <= submitted.generation <= Documents.MAX_INT64 && epoch <= Documents.MAX_INT64
    && submitted.producedAt <= Documents.MAX_MILLIS && |submitted.entries| <= Documents.MAX_ENTRIES
    && forall e :: e in submitted.entries ==>
         && e.id == NoId() && e.scope != "" && Documents.BoundedText(p, e.scope) && e.generation <= Documents.MAX_INT64
         && (if e.producedAt == 0 then now else e.producedAt) <= Documents.MAX_MILLIS
         && Documents.CandidateReadable(p, e.candidate) && Documents.CandidateCanonical(p, e.candidate)
  }

  lemma PreparedRestorable(p: Documents.Printing, submitted: EvidenceSet, incarnation: Id, epoch: nat, now: nat)
    ensures var prepared := Prepared(submitted, incarnation, epoch, now);
      Restorable(p, submitted, epoch, now) <==> Documents.FieldsReadable(p, prepared) && Documents.InCanonicalForm(p, prepared)
  {
    hide Documents.BoundedText, Documents.CandidateReadable, Documents.CandidateCanonical;
    var prepared := Prepared(submitted, incarnation, epoch, now);
    assert forall i :: 0 <= i < |submitted.entries| ==> prepared.entries[i] in prepared.entries && submitted.entries[i] in submitted.entries;
  }

  /** A journaled attachment can be read back after a restart exactly when its fields are within the reader's bounds and
      deriving the identity with the submitted identity in place gives what the reader derives. Unless the derivation
      confuses the two sets, that is a condition on the submitted set alone, and then the record reads back as it was. */
  lemma AttachmentReadable(checks: Checks, submitted: EvidenceSet, incarnation: Id, epoch: nat, now: nat)
    ensures var p, prepared := checks.printing, Prepared(submitted, incarnation, epoch, now);
      var e := EvidenceAttached(Stamped(checks, submitted, incarnation, epoch, now));
      && (Reread(p, e).Some? <==>
            && Documents.FieldsReadable(p, prepared)
            && (p.identity(prepared) == NoId() || p.identity(prepared) == p.identity(Documents.Blank(p, prepared))))
      && (Documents.KeepsApart(p, prepared) ==>
            && (Reread(p, e).Some? <==> Restorable(p, submitted, epoch, now))
            && (Reread(p, e).Some? ==> Reread(p, e) == Some(e)))
  {
    hide Documents.ReadBack, Documents.FieldsReadable, Documents.Blank, Documents.KeepsApart,
      Documents.InCanonicalForm, Restorable, Prepared;
    var p, prepared := checks.printing, Prepared(submitted, incarnation, epoch, now);
    Documents.DerivedReadable(p, prepared);
    PreparedRestorable(p, submitted, incarnation, epoch, now);
    if Documents.KeepsApart(p, prepared) {
      Documents.DerivedReadableExactly(p, prepared);
    }
  }

  // ---------------------------------------------------------------------------
  // Evidence in the state
  // ---------------------------------------------------------------------------

  ghost predicate AllAged(evidence: EvidenceSet) {
    forall e :: e in evidence.entries ==> e.freshness == RevalidationRequired
  }

  /** Every workload's evidence was attached in this boot or awaits revalidation. */
  ghost predicate EvidenceOk(s: State, attached: set<EvidenceSet>) {
    forall id :: id in s.workloads && s.workloads[id].evidence.Some? ==>
      s.workloads[id].evidence.value in attached || AllAged(s.workloads[id].evidence.value)
  }

  ghost predicate Nonempty(s: State) {
    forall id :: id in s.workloads ==> s.workloads[id].generations != []
  }

  lemma ApplyKeepsAged(s: State, e: Event)
    requires EvidenceOk(s, {}) && Nonempty(s) && Apply(s, e).Some?
    ensures EvidenceOk(Apply(s, e).value, {}) && Nonempty(Apply(s, e).value)
  {
    hide Covers;
    if e.EvidenceAttached? {
      AgedIsAged(e.evidence);
    }
  }

  lemma AgedIsAged(evidence: EvidenceSet)
    ensures AllAged(Aged(evidence))
  {
  }

  lemma AttachKeepsEvidence(s: State, attached: set<EvidenceSet>, evidence: EvidenceSet)
    requires EvidenceOk(s, attached) && Nonempty(s)
    ensures EvidenceOk(LiveAttach(s, evidence), attached + {evidence}) && Nonempty(LiveAttach(s, evidence))
  {
    hide CoveredBy, AllAged;
  }

  // ---------------------------------------------------------------------------
  // One committed event
  // ---------------------------------------------------------------------------

  /** The entries are those of the journal, the generation chains hold, and the replay shows what the state shows. */
  ghost predicate Mirrors(codec: Codec, entries: seq<Frames.Entry>, journal: seq<Event>, s: State) {
    && entries == EntriesOf(codec, journal) && StateOk(s)
    && Replay(journal).Some? && SameView(s, Replay(journal).value)
  }

  lemma MirrorsOne(codec: Codec, entries: seq<Frames.Entry>, journal: seq<Event>, s: State, e: Event, t: State)
    requires Mirrors(codec, entries, journal, s) && StateOk(t)
    requires Apply(Replay(journal).value, e).Some? && SameView(t, Apply(Replay(journal).value, e).value)
    ensures Mirrors(codec, entries + [EntryOf(codec, e)], journal + [e], t)
  {
    hide StateOk, SameView, Apply, EntryOf, Replay, EntriesOf;
    EntriesOfOne(codec, journal, e);
    ReplayOne(journal, e);
  }

  lemma RegisterStep(codec: Codec, entries: seq<Frames.Entry>, journal: seq<Event>, s: State, attached: set<EvidenceSet>,
                     c: Contract, at: nat, now: nat)
    requires Registrable(s, c) && EvidenceOk(s, attached) && Nonempty(s)
    ensures EvidenceOk(LiveRegister(s, c, now), attached) && Nonempty(LiveRegister(s, c, now))
    ensures Mirrors(codec, entries, journal, s) ==>
      Mirrors(codec, entries + [EntryOf(codec, Registered(c, at))], journal + [Registered(c, at)], LiveRegister(s, c, now))
  {
    hide StateOk, SameView, Apply, EntryOf, Registrable, LiveRegister, EvidenceOk, Nonempty, Replay, EntriesOf;
    RegisterEvidence(s, attached, c, now);
    if Mirrors(codec, entries, journal, s) {
      RegisterKeeps(s, c, now);
      RegisterReplays(s, Replay(journal).value, c, at, now);
      MirrorsOne(codec, entries, journal, s, Registered(c, at), LiveRegister(s, c, now));
    }
  }

  lemma PublishStep(codec: Codec, entries: seq<Frames.Entry>, journal: seq<Event>, s: State, attached: set<EvidenceSet>,
                    c: Contract, at: nat, now: nat)
    requires Publishable(s, c) && c.body.workload.id in s.workloads && EvidenceOk(s, attached) && Nonempty(s)
    ensures EvidenceOk(LivePublish(s, c, now), attached) && Nonempty(LivePublish(s, c, now))
    ensures Mirrors(codec, entries, journal, s) ==>
      Mirrors(codec, entries + [EntryOf(codec, Published(c, at))], journal + [Published(c, at)], LivePublish(s, c, now))
  {
    hide StateOk, SameView, Apply, EntryOf, Publishable, LivePublish, EvidenceOk, Nonempty, Replay, EntriesOf;
    PublishEvidence(s, attached, c, now);
    if Mirrors(codec, entries, journal, s) {
      PublishKeeps(s, c, now);
      PublishReplays(s, Replay(journal).value, c, at, now);
      MirrorsOne(codec, entries, journal, s, Published(c, at), LivePublish(s, c, now));
    }
  }

  lemma RetireStep(codec: Codec, entries: seq<Frames.Entry>, journal: seq<Event>, s: State, attached: set<EvidenceSet>, id: Id)
    requires id in s.workloads && EvidenceOk(s, attached) && Nonempty(s)
    ensures EvidenceOk(LiveRetire(s, id), attached) && Nonempty(LiveRetire(s, id))
    ensures Mirrors(codec, entries, journal, s) ==>
      Mirrors(codec, entries + [EntryOf(codec, Retired(id))], journal + [Retired(id)], LiveRetire(s, id))
  {
    hide StateOk, SameView, Apply, EntryOf, LiveRetire, EvidenceOk, Nonempty, Replay, EntriesOf;
    RetireEvidence(s, attached, id);
    if Mirrors(codec, entries, journal, s) {
      RetireKeeps(s, id);
      RetireReplays(s, Replay(journal).value, id);
      MirrorsOne(codec, entries, journal, s, Retired(id), LiveRetire(s, id));
    }
  }

  lemma InstallStep(codec: Codec, entries: seq<Frames.Entry>, journal: seq<Event>, s: State, attached: set<EvidenceSet>,
                    p: PolicyDocument)
    requires EvidenceOk(s, attached) && Nonempty(s)
    ensures EvidenceOk(LiveInstall(s, p), attached) && Nonempty(LiveInstall(s, p))
    ensures Mirrors(codec, entries, journal, s) ==>
      Mirrors(codec, entries + [EntryOf(codec, PolicyInstalled(p))], journal + [PolicyInstalled(p)], LiveInstall(s, p))
  {
    hide StateOk, SameView, Apply, EntryOf, LiveInstall, EvidenceOk, Nonempty, Replay, EntriesOf;
    InstallEvidence(s, attached, p);
    if Mirrors(codec, entries, journal, s) {
      InstallReplays(s, Replay(journal).value, p);
      MirrorsOne(codec, entries, journal, s, PolicyInstalled(p), LiveInstall(s, p));
    }
  }

  lemma AttachStep(codec: Codec, entries: seq<Frames.Entry>, journal: seq<Event>, s: State, attached: set<EvidenceSet>,
                   evidence: EvidenceSet)
    requires EvidenceOk(s, attached) && Nonempty(s)
    ensures EvidenceOk(LiveAttach(s, evidence), attached + {evidence}) && Nonempty(LiveAttach(s, evidence))
    ensures Mirrors(codec, entries, journal, s) ==>
      Mirrors(codec, entries + [EntryOf(codec, EvidenceAttached(evidence))], journal + [EvidenceAttached(evidence)],
              LiveAttach(s, evidence))
  {
    hide StateOk, SameView, EntryOf, LiveAttach, EvidenceOk, Nonempty, Replay, EntriesOf, ApplyEvidence;
    AttachKeepsEvidence(s, attached, evidence);
    if Mirrors(codec, entries, journal, s) {
      AttachKeeps(s, evidence);
      AttachReplays(s, Replay(journal).value, evidence);
      MirrorsOne(codec, entries, journal, s, EvidenceAttached(evidence), LiveAttach(s, evidence));
    }
  }

  /** What a refusal code says about a publication. */
  ghost predicate PublishJustified(checks: Checks, s: State, c: Contract, code: Code) {
    var known := c.body.workload.id in s.workloads && s.workloads[c.body.workload.id].generations != [];
    var w := if known then s.workloads[c.body.workload.id] else FRESH;
    match code
    case InvalidContract => !checks.validate(c)
    case UnknownWorkload => c.body.workload.id !in s.workloads
    case ContractRetired => known && w.retired
    case ReplayRejected => known && c.body.generation <= w.contractGeneration
    case GenerationGap => known && c.body.generation > w.contractGeneration + 1
    case StaleGeneration =>
      known && (c.supersedes == 0 || c.supersedes != w.contractGeneration || c.supersedesDigest != w.digest)
    case IncompatibleMajor => known && c.body.major != w.generations[|w.generations| - 1].contract.body.major
    case SignatureRefused => !checks.verify(Publication, c)
    case NotContractOwner =>
      known && c.envelope.publisher != w.generations[|w.generations| - 1].contract.envelope.publisher
    case UnknownPolicy => s.policy.Some? && c.body.policyGeneration != s.policyGeneration
    case PolicyViolated => s.policy.Some? && !checks.policyAllows(s.policy.value, c.body)
    case NotCompatible => known && !CompatibleBodies(w.generations[|w.generations| - 1].contract.body, c.body)
    case RetentionExceeded => known && |w.generations| >= MAX_RETAINED_GENERATIONS
    case _ => false
  }

  /** A publication is refused only with a code that says so, and otherwise every check holds. */
  lemma PublishRefusalMeans(checks: Checks, s: State, c: Contract)
    requires Nonempty(s)
    ensures var f := PublishRefusal(checks, s, c);
      && (f.None? ==>
            && checks.validate(c) && checks.verify(Publication, c)
            && (s.policy.Some? ==> c.body.policyGeneration == s.policyGeneration && checks.policyAllows(s.policy.value, c.body)))
      && (f.Some? ==> f.value != NotDurable && PublishJustified(checks, s, c, f.value))
  {
    hide CompatibleBodies;
  }

  lemma NotRefusedIsRegistrable(checks: Checks, s: State, c: Contract)
    requires RegisterRefusal(checks, s, c).None?
    ensures Registrable(s, c)
  {
  }

  // ---------------------------------------------------------------------------
  // The runtime
  // ---------------------------------------------------------------------------

  datatype Evaluated = UnknownId | Verdict(items: seq<Item>, aggregate: Satisfaction)

  class Runtime {
    const checks: Checks
    const codec: Codec
    const incarnation: Id
    const epoch: nat
    const ledger: Ledgers.Ledger
    var state: State
    /** The events committed since the journal was created, while this is the boot that created it. */
    ghost var journal: seq<Event>
    /** The evidence sets attached in this boot. */
    ghost var attached: set<EvidenceSet>

    /** Holds in every boot, whatever journal it was opened from. */
    ghost predicate Basic()
      reads this, ledger
    {
      ledger.Layout() && Nonempty(state) && EvidenceOk(state, attached)
    }

    /** Holds throughout the boot that created the journal: the durable history is the journal, every workload's
        generations form a chain, and replaying the journal shows what the live state shows. */
    ghost predicate Valid()
      reads this, ledger
    {
      Basic() && ledger.Valid() && Mirrors(codec, ledger.Entries(), journal, state)
    }

    ghost predicate Unchanged(before: State, disk: seq<Bytes>, events: seq<Event>)
      reads this, ledger
    {
      state == before && ledger.disk == disk && journal == events
    }

    /** A new state directory. */
    constructor Create(checks: Checks, codec: Codec, incarnation: Id, epoch: nat, hash: Frames.Hash)
      ensures Valid() && fresh(ledger) && state == EMPTY && journal == [] && attached == {}
      ensures this.checks == checks && this.codec == codec && this.incarnation == incarnation && this.epoch == epoch
      ensures ledger.hash == hash && ledger.disk == [] && ledger.segment == ledger.segmentCount == 0
    {
      this.checks, this.codec, this.incarnation, this.epoch := checks, codec, incarnation, epoch;
      ledger := new Ledgers.Ledger.Create(hash);
      state, journal, attached := EMPTY, [], {};
    }

    /** A later boot, with the state rebuilt from its journal. */
    constructor Restore(checks: Checks, codec: Codec, incarnation: Id, epoch: nat, ledger: Ledgers.Ledger, restored: State)
      requires ledger.Layout() && Nonempty(restored) && EvidenceOk(restored, {})
      ensures Basic() && this.ledger == ledger && state == restored && attached == {}
      ensures this.checks == checks && this.codec == codec && this.incarnation == incarnation && this.epoch == epoch
    {
      this.checks, this.codec, this.incarnation, this.epoch := checks, codec, incarnation, epoch;
      this.ledger := ledger;
      state, journal, attached := restored, [], {};
    }

    /** The durability point: one record is appended, or nothing is. */
    method Commit(e: Event) returns (r: Result)
      requires ledger.Layout()
      modifies ledger
      ensures ledger.Layout()
      ensures r.Accepted? <==> old(ledger.Accepts(|codec.payload(e)|))
      ensures r.Rejected? ==> r.code == NotDurable && ledger.disk == old(ledger.disk)
      ensures r.Accepted? ==> r.sequence == ledger.lastSequence == old(ledger.lastSequence) + 1
      ensures old(ledger.Valid()) ==> ledger.Valid()
      ensures old(ledger.Valid()) && r.Rejected? ==> ledger.Entries() == old(ledger.Entries())
      ensures old(ledger.Valid()) && r.Accepted? ==> ledger.Entries() == old(ledger.Entries()) + [EntryOf(codec, e)]
    {
      hide KindOf, Frames.Frame, Frames.ChainOf, Ledgers.Written, Ledgers.SizeOf;
      assert ledger.Entries() + [] == ledger.Entries();
      if |codec.payload(e)| > Frames.MAX_RECORD_BYTES {
        return Rejected(NotDurable);
      }
      var appended := ledger.Append(KindOf(e), codec.payload(e));
      r := if appended.Appended? then Accepted(appended.sequence) else Rejected(NotDurable);
    }

    /** Registers the first generation of a workload. A refusal changes neither the state nor the journal. */
    method RegisterWorkload(c: Contract, at: nat, now: nat) returns (r: Result)
      requires Basic()
      modifies this`state, this`journal, ledger
      ensures Basic() && (old(Valid()) ==> Valid())
      ensures r.Accepted? <==>
        RegisterRefusal(checks, old(state), c).None? && old(ledger.Accepts(|codec.payload(Registered(c, at))|))
      ensures r.Rejected? ==>
        && r.code == OrElse(RegisterRefusal(checks, old(state), c), NotDurable)
        && Unchanged(old(state), old(ledger.disk), old(journal))
      ensures r.Accepted? ==>
        && r.sequence == ledger.lastSequence == old(ledger.lastSequence) + 1
        && state == LiveRegister(old(state), c, now) && journal == old(journal) + [Registered(c, at)]
        && Begins(old(state), state, c, now)
      ensures r.Accepted? <==>
        && checks.validate(c) && c.body.generation == 1 && c.supersedes == 0 && checks.verify(Registration, c)
        && (old(state).policy.Some? ==>
              && c.body.policyGeneration == old(state).policyGeneration
              && checks.policyAllows(old(state).policy.value, c.body))
        && c.body.workload.id !in old(state).workloads && old(ledger.Accepts(|codec.payload(Registered(c, at))|))
      ensures r == Rejected(InvalidContract) ==> !checks.validate(c)
      ensures r == Rejected(GenerationGap) ==> c.body.generation != 1
      ensures r == Rejected(Code.StaleGeneration) ==> c.supersedes != 0
      ensures r == Rejected(SignatureRefused) ==> !checks.verify(Registration, c)
      ensures r == Rejected(UnknownPolicy) ==> old(state).policy.Some? && c.body.policyGeneration != old(state).policyGeneration
      ensures r == Rejected(PolicyViolated) ==> old(state).policy.Some? && !checks.policyAllows(old(state).policy.value, c.body)
      ensures r == Rejected(DuplicateWorkload) ==> c.body.workload.id in old(state).workloads
      ensures r == Rejected(NotDurable) ==> !old(ledger.Accepts(|codec.payload(Registered(c, at))|))
      ensures r.Rejected? ==> r.code in {InvalidContract, GenerationGap, Code.StaleGeneration, SignatureRefused, UnknownPolicy,
                                         PolicyViolated, DuplicateWorkload, NotDurable}
    {
      hide Mirrors, EvidenceOk, Nonempty, LiveRegister, Begins, Registrable, EntryOf, Ledgers.Ledger.Valid,
        Ledgers.Ledger.Layout, Ledgers.Ledger.Entries, Ledgers.Ledger.Accepts;
      if !checks.validate(c) {
        return Rejected(InvalidContract);
      }
      if c.body.generation != 1 {
        return Rejected(GenerationGap);
      }
      if c.supersedes != 0 {
        return Rejected(Code.StaleGeneration);
      }
      if !checks.verify(Registration, c) {
        return Rejected(SignatureRefused);
      }
      if state.policy.Some? {
        if c.body.policyGeneration != state.policyGeneration {
          return Rejected(UnknownPolicy);
        }
        if !checks.policyAllows(state.policy.value, c.body) {
          return Rejected(PolicyViolated);
        }
      }
      if c.body.workload.id in state.workloads {
        return Rejected(DuplicateWorkload);
      }
      r := Commit(Registered(c, at));
      if r.Accepted? {
        RegisterShows(state, c, now);
        NotRefusedIsRegistrable(checks, state, c);
        RegisterStep(codec, old(ledger.Entries()), journal, state, attached, c, at, now);
        state := LiveRegister(state, c, now);
        journal := journal + [Registered(c, at)];
      }
    }

    /** The checks of a publication, in their order. */
    method CheckPublish(c: Contract) returns (refusal: Option<Code>)
      requires Basic()
      ensures refusal == PublishRefusal(checks, state, c)
    {
      hide EvidenceOk, CompatibleBodies;
      var id := c.body.workload.id;
      if !checks.validate(c) {
        return Some(InvalidContract);
      }
      if id !in state.workloads {
        return Some(UnknownWorkload);
      }
      var current := state.workloads[id];
      if current.retired {
        return Some(ContractRetired);
      }
      var expected := current.contractGeneration + 1;
      if c.body.generation < expected {
        return Some(ReplayRejected);
      }
      if c.body.generation > expected {
        return Some(GenerationGap);
      }
      if c.supersedes == 0 || c.supersedes != current.contractGeneration || c.supersedesDigest != current.digest {
        return Some(Code.StaleGeneration);
      }
      var last := current.generations[|current.generations| - 1].contract;
      if c.body.major != last.body.major {
        return Some(Code.IncompatibleMajor);
      }
      if !checks.verify(Publication, c) {
        return Some(SignatureRefused);
      }
      if last.envelope.publisher != c.envelope.publisher {
        return Some(NotContractOwner);
      }
      if state.policy.Some? {
        if c.body.policyGeneration != state.policyGeneration {
          return Some(UnknownPolicy);
        }
        if !checks.policyAllows(state.policy.value, c.body) {
          return Some(PolicyViolated);
        }
      }
      var verdict, log := CheckCompatibility(last.body, c.body);
      if verdict.Incompatible? {
        return Some(NotCompatible);
      }
      if |current.generations| >= MAX_RETAINED_GENERATIONS {
        return Some(RetentionExceeded);
      }
      refusal := None;
    }

    /** Publishes the next generation of a workload. */
    method Publish(c: Contract, at: nat, now: nat) returns (r: Result)
      requires Basic()
      modifies this`state, this`journal, ledger
      ensures Basic() && (old(Valid()) ==> Valid())
      ensures r.Accepted? <==>
        PublishRefusal(checks, old(state), c).None? && old(ledger.Accepts(|codec.payload(Published(c, at))|))
      ensures r.Rejected? ==>
        && r.code == OrElse(PublishRefusal(checks, old(state), c), NotDurable)
        && Unchanged(old(state), old(ledger.disk), old(journal))
      ensures r.Accepted? ==>
        && r.sequence == ledger.lastSequence == old(ledger.lastSequence) + 1
        && Publishable(old(state), c)
        && state == LivePublish(old(state), c, now) && journal == old(journal) + [Published(c, at)]
        && Extends(old(state), state, c, now)
      ensures r.Accepted? ==>
        && checks.validate(c) && checks.verify(Publication, c)
        && (old(state).policy.Some? ==>
              && c.body.policyGeneration == old(state).policyGeneration
              && checks.policyAllows(old(state).policy.value, c.body))
      ensures r.Rejected? ==>
        if r.code == NotDurable then !old(ledger.Accepts(|codec.payload(Published(c, at))|))
        else PublishJustified(checks, old(state), c, r.code)
    {
      hide Mirrors, EvidenceOk, Nonempty, LivePublish, Extends, Publishable, PublishRefusal, EntryOf, CompatibleBodies,
        PublishJustified, Elsewhere, Lookup, DistinctKeys, Carried, WorkloadOk, StateOk,
        Ledgers.Ledger.Valid, Ledgers.Ledger.Layout, Ledgers.Ledger.Entries, Ledgers.Ledger.Accepts;
      PublishRefusalMeans(checks, state, c);
      var refusal := CheckPublish(c);
      if refusal.Some? {
        return Rejected(refusal.value);
      }
      r := Commit(Published(c, at));
      if r.Accepted? {
        NotRefusedIsPublishable(checks, state, c);
        PublishShows(state, c, now);
        PublishStep(codec, old(ledger.Entries()), journal, state, attached, c, at, now);
        state := LivePublish(state, c, now);
        journal := journal + [Published(c, at)];
      }
    }

    /** Marks a workload retired; its history stays. */
    method Retire(id: Id) returns (r: Result)
      requires Basic()
      modifies this`state, this`journal, ledger
      ensures Basic() && (old(Valid()) ==> Valid())
      ensures r.Accepted? <==> RetireRefusal(old(state), id).None? && old(ledger.Accepts(|codec.payload(Retired(id))|))
      ensures r.Rejected? ==>
        && r.code == OrElse(RetireRefusal(old(state), id), NotDurable)
        && Unchanged(old(state), old(ledger.disk), old(journal))
      ensures r.Accepted? ==>
        && r.sequence == ledger.lastSequence == old(ledger.lastSequence) + 1
        && id in old(state).workloads && !old(state).workloads[id].retired
        && state == LiveRetire(old(state), id) && journal == old(journal) + [Retired(id)]
        && Ends(old(state), state, id)
      ensures r == Rejected(UnknownWorkload) <==> id !in old(state).workloads
      ensures r == Rejected(ContractRetired) <==> id in old(state).workloads && old(state).workloads[id].retired
      ensures r == Rejected(NotDurable) ==> !old(ledger.Accepts(|codec.payload(Retired(id))|))
      ensures r.Rejected? ==> r.code in {UnknownWorkload, ContractRetired, NotDurable}
    {
      hide Mirrors, EvidenceOk, Nonempty, LiveRetire, Ends, EntryOf, Ledgers.Ledger.Valid, Ledgers.Ledger.Layout,
        Ledgers.Ledger.Entries, Ledgers.Ledger.Accepts;
      if id !in state.workloads {
        return Rejected(UnknownWorkload);
      }
      if state.workloads[id].retired {
        return Rejected(ContractRetired);
      }
      r := Commit(Retired(id));
      if r.Accepted? {
        RetireShows(state, id);
        RetireStep(codec, old(ledger.Entries()), journal, state, attached, id);
        state := LiveRetire(state, id);
        journal := journal + [Retired(id)];
      }
    }

    /** Installs or replaces the policy. */
    method InstallPolicy(p: PolicyDocument) returns (r: Result)
      requires Basic()
      modifies this`state, this`journal, ledger
      ensures Basic() && (old(Valid()) ==> Valid())
      ensures r.Accepted? <==>
        InstallRefusal(checks, old(state), p).None? && old(ledger.Accepts(|codec.payload(PolicyInstalled(p))|))
      ensures r.Rejected? ==>
        && r.code == OrElse(InstallRefusal(checks, old(state), p), NotDurable)
        && Unchanged(old(state), old(ledger.disk), old(journal))
      ensures r.Accepted? ==>
        && r.sequence == ledger.lastSequence == old(ledger.lastSequence) + 1
        && state == LiveInstall(old(state), p) && journal == old(journal) + [PolicyInstalled(p)]
      ensures r.Accepted? ==>
        && checks.validatePolicy(p)
        && (old(state).policy.Some? ==>
              && p.generation >= old(state).policyGeneration
              && (p.generation == old(state).policyGeneration ==> p.policyId == old(state).policy.value.policyId))
        && state == old(state).(policy := Some(p), policyGeneration := p.generation)
      ensures r == Rejected(InvalidPolicy) <==> !checks.validatePolicy(p)
      ensures r == Rejected(Code.StaleGeneration) ==> old(state).policy.Some? && p.generation < old(state).policyGeneration
      ensures r == Rejected(DuplicateWorkload) ==>
        old(state).policy.Some? && p.generation == old(state).policyGeneration && p.policyId != old(state).policy.value.policyId
      ensures r == Rejected(NotDurable) ==> !old(ledger.Accepts(|codec.payload(PolicyInstalled(p))|))
      ensures r.Rejected? ==> r.code in {InvalidPolicy, Code.StaleGeneration, DuplicateWorkload, NotDurable}
    {
      hide Mirrors, EvidenceOk, Nonempty, EntryOf, Ledgers.Ledger.Valid, Ledgers.Ledger.Layout, Ledgers.Ledger.Entries,
        Ledgers.Ledger.Accepts;
      if !checks.validatePolicy(p) {
        return Rejected(InvalidPolicy);
      }
      if state.policy.Some? && p.generation < state.policyGeneration {
        return Rejected(Code.StaleGeneration);
      }
      if state.policy.Some? && p.generation == state.policyGeneration && p.policyId != state.policy.value.policyId {
        return Rejected(DuplicateWorkload);
      }
      r := Commit(PolicyInstalled(p));
      if r.Accepted? {
        InstallStep(codec, old(ledger.Entries()), journal, state, attached, p);
        state := LiveInstall(state, p);
        journal := journal + [PolicyInstalled(p)];
      }
    }

    /** Attaches evidence to every workload it covers that is not retired. */
    method AttachEvidence(submitted: EvidenceSet, now: nat) returns (r: Result)
      requires Basic()
      modifies this`state, this`journal, this`attached, ledger
      ensures Basic() && (old(Valid()) ==> Valid())
      ensures var stamped := Stamped(checks, submitted, incarnation, epoch, now);
        && (r.Accepted? <==>
              AttachRefusal(checks, old(state), submitted).None? && old(ledger.Accepts(|codec.payload(EvidenceAttached(stamped))|)))
        && (r.Rejected? ==>
              && r.code == OrElse(AttachRefusal(checks, old(state), submitted), NotDurable)
              && Unchanged(old(state), old(ledger.disk), old(journal)) && attached == old(attached))
        && (r.Accepted? ==>
              && r.sequence == ledger.lastSequence == old(ledger.lastSequence) + 1
              && state == LiveAttach(old(state), stamped) && journal == old(journal) + [EvidenceAttached(stamped)]
              && attached == old(attached) + {stamped} && Reaches(old(state), state, stamped))
      ensures r.Accepted? ==>
        && submitted.entries != [] && checks.trusted(submitted.publisher)
        && (submitted.generation == 0 || submitted.generation > old(state).evidenceFloor)
      ensures r == Rejected(NoEvidenceGiven) <==> submitted.entries == []
      ensures r == Rejected(EvidenceBackwards) ==> 0 < submitted.generation <= old(state).evidenceFloor
      ensures r == Rejected(PublisherNotTrusted) ==> !checks.trusted(submitted.publisher)
      ensures r.Rejected? ==> r.code in {NoEvidenceGiven, EvidenceBackwards, PublisherNotTrusted, NotDurable}
    {
      hide Mirrors, EvidenceOk, Nonempty, LiveAttach, Reaches, Stamped, EntryOf, Ledgers.Ledger.Valid,
        Ledgers.Ledger.Layout, Ledgers.Ledger.Entries, Ledgers.Ledger.Accepts;
      if |submitted.entries| == 0 {
        return Rejected(NoEvidenceGiven);
      }
      if submitted.generation != 0 && submitted.generation <= state.evidenceFloor {
        return Rejected(EvidenceBackwards);
      }
      if !checks.trusted(submitted.publisher) {
        return Rejected(PublisherNotTrusted);
      }
      var stamped := Stamped(checks, submitted, incarnation, epoch, now);
      r := Commit(EvidenceAttached(stamped));
      if r.Accepted? {
        AttachShows(state, stamped);
        AttachStep(codec, old(ledger.Entries()), journal, state, attached, stamped);
        state := LiveAttach(state, stamped);
        journal := journal + [EvidenceAttached(stamped)];
        attached := attached + {stamped};
      }
    }

    /** Evaluates a workload's latest generation. A requirement is SATISFIED, and so is the aggregate, only on
        evidence attached in this boot. */
    method Evaluate(id: Id) returns (r: Evaluated)
      requires Basic()
      ensures r.UnknownId? <==> id !in state.workloads
      ensures r.Verdict? ==>
        (forall x :: x in r.items && x.decision.satisfaction == Satisfied ==>
           && state.workloads[id].evidence.Some? && state.workloads[id].evidence.value in attached
           && Satisfies(x.requirement, Find(state.workloads[id].evidence.value.entries, x.requirement.scope), incarnation))
      ensures r.Verdict? && r.aggregate == Satisfied ==>
        state.workloads[id].evidence.Some? && state.workloads[id].evidence.value in attached
      ensures r.Verdict? && attached == {} ==> r.aggregate != Satisfied
      ensures r.Verdict? ==>
        var w := state.workloads[id];
        && w.generations != []
        && var requirements := w.generations[|w.generations| - 1].contract.body.requirements;
           && (w.evidence.None? ==>
                 && r.aggregate == Unknown && |r.items| == |requirements|
                 && forall i :: 0 <= i < |requirements| ==>
                      && r.items[i].requirement == requirements[i]
                      && r.items[i].decision == if requirements[i].strength.Informational? then Decision(NotApplicable, Ok)
                                                else Decision(Unknown, NoEvidence))
           && (w.evidence.Some? ==>
                 && r.items == Verdicts(Sort(Precedes, requirements), w.evidence.value.entries, incarnation)
                 && (r.aggregate == Satisfied <==>
                       && (exists q :: q in requirements && q.strength.Required?)
                       && forall q :: q in requirements && q.strength.Required? ==>
                            Satisfies(q, Find(w.evidence.value.entries, q.scope), incarnation))
                 && (r.aggregate == Unsatisfied <==>
                       exists q :: q in requirements && q.strength.Required?
                         && Decide(q, Find(w.evidence.value.entries, q.scope), incarnation).satisfaction == Unsatisfied))
    {
      hide Sort, CompatibleBodies, Find, DecideCandidate;
      if id !in state.workloads {
        return UnknownId;
      }
      var w := state.workloads[id];
      var contract := w.generations[|w.generations| - 1].contract;
      if w.evidence.None? {
        var items := WithoutEvidence(contract.body.requirements);
        return Verdict(items, Unknown);
      }
      var items, aggregate := EvaluateContract(contract.body, w.evidence.value, incarnation);
      SatisfiedMeansAttached(Sort(Precedes, contract.body.requirements), w.evidence.value, incarnation);
      SameElements(contract.body.requirements);
      r := Verdict(items, aggregate);
    }
  }

  /** Every REQUIRED requirement sits in a declared scope and is met by what the first entry for that scope reports. */
  ghost predicate Meets(submitted: EvidenceSet, body: Body) {
    && (exists q :: q in body.requirements && q.strength.Required?)
    && forall q :: q in body.requirements && q.strength.Required? ==>
         && Declares(body, q.scope) && Find(submitted.entries, q.scope).Some?
         && DecideCandidate(q, Find(submitted.entries, q.scope).value.candidate).satisfaction == Satisfied
  }

  lemma {:induction false} FindPrepared(entries: seq<Entry>, out: seq<Entry>, scope: string, incarnation: Id)
    requires |out| == |entries|
    requires forall i :: 0 <= i < |entries| ==>
      && out[i].scope == entries[i].scope && out[i].candidate == entries[i].candidate
      && out[i].capturedBy == incarnation && out[i].freshness == Current
    ensures Find(out, scope).Some? <==> Find(entries, scope).Some?
    ensures Find(entries, scope).Some? ==>
      var e := Find(out, scope).value;
      e.candidate == Find(entries, scope).value.candidate && e.capturedBy == incarnation && e.freshness == Current
  {
    if entries != [] && entries[0].scope != scope {
      FindPrepared(entries[1..], out[1..], scope, incarnation);
    }
  }

  /** Evidence attached just now that meets every REQUIRED requirement satisfies them, and reaches its workload. */
  lemma FreshEvidenceSatisfies(checks: Checks, s: State, id: Id, submitted: EvidenceSet, incarnation: Id, epoch: nat, now: nat)
    requires id in s.workloads && !s.workloads[id].retired && s.workloads[id].generations != []
    requires Meets(submitted, s.workloads[id].generations[|s.workloads[id].generations| - 1].contract.body)
    ensures var stamped := Stamped(checks, submitted, incarnation, epoch, now);
      var body := s.workloads[id].generations[|s.workloads[id].generations| - 1].contract.body;
      && id in LiveAttach(s, stamped).workloads
      && LiveAttach(s, stamped).workloads[id]
           == s.workloads[id].(evidence := Some(stamped), evidenceGeneration := stamped.generation)
      && forall q :: q in body.requirements && q.strength.Required? ==> Satisfies(q, Find(stamped.entries, q.scope), incarnation)
  {
    hide DecideCandidate, Find, LiveAttach;
    var stamped := Stamped(checks, submitted, incarnation, epoch, now);
    var body := s.workloads[id].generations[|s.workloads[id].generations| - 1].contract.body;
    AttachReaches(s, stamped, id);
    forall q | q in body.requirements && q.strength.Required?
      ensures Satisfies(q, Find(stamped.entries, q.scope), incarnation)
    {
      FindPrepared(submitted.entries, stamped.entries, q.scope, incarnation);
    }
    var q :| q in body.requirements && q.strength.Required?;
    FoundReaches(stamped.entries, submitted.entries, body, q.scope);
  }

  lemma FoundReaches(out: seq<Entry>, entries: seq<Entry>, body: Body, scope: string)
    requires Declares(body, scope) && Find(entries, scope).Some? && |out| == |entries|
    requires forall i :: 0 <= i < |entries| ==> out[i].scope == entries[i].scope
    ensures exists i, j :: 0 <= i < |out| && 0 <= j < |body.scopes| && out[i].scope == body.scopes[j].name
  {
    var e := Find(entries, scope).value;
    var i :| 0 <= i < |entries| && entries[i] == e;
    var j :| 0 <= j < |body.scopes| && body.scopes[j].name == scope;
    assert out[i].scope == body.scopes[j].name;
  }

  /** Attaching and then evaluating: evidence that meets every REQUIRED requirement of the latest generation is
      SATISFIED at once. */
  method AttachThenEvaluate(rt: Runtime, submitted: EvidenceSet, id: Id, now: nat) returns (attached: Result, r: Evaluated)
    requires rt.Basic()
    modifies rt`state, rt`journal, rt`attached, rt.ledger
    ensures rt.Basic()
    ensures id in old(rt.state).workloads ==> old(rt.state).workloads[id].generations != []
    ensures attached.Accepted? && id in old(rt.state).workloads && !old(rt.state).workloads[id].retired
         && Meets(submitted, old(rt.state).workloads[id].generations[|old(rt.state).workloads[id].generations| - 1].contract.body)
         ==> r.Verdict? && r.aggregate == Satisfied
  {
    hide *;
    GenerationsHeld(rt);
    attached := rt.AttachEvidence(submitted, now);
    r := rt.Evaluate(id);
    var before := old(rt.state);
    if attached.Accepted? && id in before.workloads && !before.workloads[id].retired
      && Meets(submitted, before.workloads[id].generations[|before.workloads[id].generations| - 1].contract.body) {
      FreshEvidenceSatisfies(rt.checks, before, id, submitted, rt.incarnation, rt.epoch, now);
      MeetsSomething(submitted, before.workloads[id].generations[|before.workloads[id].generations| - 1].contract.body);
    }
  }

  lemma MeetsSomething(submitted: EvidenceSet, body: Body)
    requires Meets(submitted, body)
    ensures exists q :: q in body.requirements && q.strength.Required?
  {
  }

  lemma GenerationsHeld(rt: Runtime)
    requires rt.Basic()
    ensures forall id :: id in rt.state.workloads ==> rt.state.workloads[id].generations != []
  {
  }

  function NoEvidenceFor(r: Requirement): Decision {
    Decide(r, None, "")
  }

  method WithoutEvidence(requirements: seq<Requirement>) returns (items: seq<Item>)
    ensures |items| == |requirements|
    ensures forall i :: 0 <= i < |items| ==> items[i] == Item(requirements[i], NoEvidenceFor(requirements[i]))
    ensures forall i :: 0 <= i < |items| ==>
      items[i].decision == if requirements[i].strength.Informational? then Decision(NotApplicable, Ok) else Decision(Unknown, NoEvidence)
    ensures forall x :: x in items ==> x.decision.satisfaction != Satisfied
  {
    items := [];
    for i := 0 to |requirements|
      invariant |items| == i
      invariant forall k :: 0 <= k < i ==> items[k] == Item(requirements[k], NoEvidenceFor(requirements[k]))
    {
      var decision := if requirements[i].strength.Informational? then Decision(NotApplicable, Ok) else Decision(Unknown, NoEvidence);
      items := items + [Item(requirements[i], decision)];
    }
  }

  lemma SameElements(requirements: seq<Requirement>)
    ensures forall r :: r in Sort(Precedes, requirements) <==> r in requirements
  {
    SortPermutes(Precedes, requirements);
    SamePermutation(Sort(Precedes, requirements), requirements);
  }

  /** A verdict over aged evidence never says SATISFIED. */
  lemma SatisfiedMeansAttached(rs: seq<Requirement>, evidence: EvidenceSet, current: Id)
    ensures forall x :: x in Verdicts(rs, evidence.entries, current) && x.decision.satisfaction == Satisfied ==>
      Satisfies(x.requirement, Find(evidence.entries, x.requirement.scope), current)
    ensures forall r: Requirement :: Satisfies(r, Find(evidence.entries, r.scope), current) ==> !AllAged(evidence)
  {
    forall r: Requirement | Satisfies(r, Find(evidence.entries, r.scope), current)
      ensures !AllAged(evidence)
    {
      SatisfiedNeedsCurrent(r, Find(evidence.entries, r.scope), current);
    }
  }

  lemma RegisterEvidence(s: State, attached: set<EvidenceSet>, c: Contract, now: nat)
    requires EvidenceOk(s, attached) && Nonempty(s)
    ensures EvidenceOk(LiveRegister(s, c, now), attached) && Nonempty(LiveRegister(s, c, now))
  {
  }

  lemma PublishEvidence(s: State, attached: set<EvidenceSet>, c: Contract, now: nat)
    requires EvidenceOk(s, attached) && Nonempty(s) && c.body.workload.id in s.workloads
    ensures EvidenceOk(LivePublish(s, c, now), attached) && Nonempty(LivePublish(s, c, now))
  {
    assert s.workloads[c.body.workload.id].evidence == LivePublish(s, c, now).workloads[c.body.workload.id].evidence;
  }

  lemma InstallEvidence(s: State, attached: set<EvidenceSet>, p: PolicyDocument)
    requires EvidenceOk(s, attached) && Nonempty(s)
    ensures EvidenceOk(LiveInstall(s, p), attached) && Nonempty(LiveInstall(s, p))
  {
  }

  /** The checks leave nothing out that the generation chain needs. */
  lemma NotRefusedIsPublishable(checks: Checks, s: State, c: Contract)
    requires Nonempty(s) && PublishRefusal(checks, s, c).None?
    ensures Publishable(s, c) && c.body.workload.id in s.workloads
  {
    hide CompatibleBodies;
  }

  lemma RetireEvidence(s: State, attached: set<EvidenceSet>, id: Id)
    requires EvidenceOk(s, attached) && Nonempty(s) && id in s.workloads
    ensures EvidenceOk(LiveRetire(s, id), attached) && Nonempty(LiveRetire(s, id))
  {
    assert s.workloads[id].evidence == LiveRetire(s, id).workloads[id].evidence;
  }

  // ---------------------------------------------------------------------------
  // Opening
  // ---------------------------------------------------------------------------

  /** The replay loop of opening: decode and apply record after record; the first failure refuses to serve. */
  method ReplayRecords(codec: Codec, records: seq<Frames.Record>) returns (s: Option<State>)
    ensures s == Restored(codec, records)
    ensures s.Some? ==> EvidenceOk(s.value, {}) && Nonempty(s.value)
  {
    hide Apply;
    var state := EMPTY;
    for i := 0 to |records|
      invariant Restored(codec, records[..i]) == Some(state)
      invariant EvidenceOk(state, {}) && Nonempty(state)
    {
      assert records[..i + 1][..i] == records[..i];
      var event := codec.decode(records[i].kind, records[i].payload);
      if event.None? {
        RestoredStops(codec, records, i + 1);
        return None;
      }
      var next := Apply(state, event.value);
      if next.None? {
        RestoredStops(codec, records, i + 1);
        return None;
      }
      ApplyKeepsAged(state, event.value);
      state := next.value;
    }
    assert records[..|records|] == records;
    s := Some(state);
  }

  lemma {:induction false} RestoredStops(codec: Codec, records: seq<Frames.Record>, n: nat)
    requires n <= |records| && Restored(codec, records[..n]).None?
    ensures Restored(codec, records).None?
    decreases |records|
  {
    hide Apply;
    if n < |records| {
      assert records[..|records| - 1][..n] == records[..n];
      RestoredStops(codec, records[..|records| - 1], n);
    } else {
      assert records[..n] == records;
    }
  }

  datatype Opened = Serving(runtime: Runtime) | Refusing

  /** A new boot over whatever the directory holds. Nothing is evaluated SATISFIED until new evidence arrives,
      because no evidence set has been attached yet. */
  method Open(checks: Checks, codec: Codec, incarnation: Id, epoch: nat, hash: Frames.Hash, directory: seq<Bytes>)
    returns (r: Opened)
    ensures var o := Journal.ScanDisk(hash, directory, Journal.START);
      r.Serving? <==> o.Recovered? && Restored(codec, o.records).Some?
    ensures r.Serving? ==>
      && fresh(r.runtime) && fresh(r.runtime.ledger) && r.runtime.Basic() && r.runtime.attached == {}
      && r.runtime.checks == checks && r.runtime.incarnation == incarnation && r.runtime.epoch == epoch
      && Some(r.runtime.state) == Restored(codec, Journal.ScanDisk(hash, directory, Journal.START).records)
  {
    hide EvidenceOk, Nonempty, Restored, Journal.ScanDisk, Journal.Repair;
    var store := Ledgers.Open(hash, directory);
    if store.Unreadable? {
      return Refusing;
    }
    var restored := ReplayRecords(codec, store.records);
    if restored.None? {
      return Refusing;
    }
    var runtime := new Runtime.Restore(checks, codec, incarnation, epoch, store.ledger, restored.value);
    r := Serving(runtime);
  }

  // ---------------------------------------------------------------------------
  // Durability of a whole run
  // ---------------------------------------------------------------------------

  lemma {:induction false} ReplayPrefix(events: seq<Event>, n: nat)
    requires n <= |events| && Replay(events).Some?
    ensures Replay(events[..n]).Some?
  {
    hide Apply;
    if n < |events| {
      ReplayPrefix(events[..|events| - 1], n);
      assert events[..|events| - 1][..n] == events[..n];
    } else {
      assert events[..n] == events;
    }
  }

  /** The directory of a runtime, as values. */
  ghost predicate Holding(codec: Codec, p: Documents.Printing, l: Ledgers.Ledger, events: seq<Event>)
    reads l
  {
    Faithful(codec, p) && AllRepresentable(codec, events) && l.Valid() && l.Entries() == EntriesOf(codec, events)
  }

  /** The hypothesis of the results about restarts: the codec is faithful and represents what was committed. */
  ghost predicate Readying(rt: Runtime)
    reads rt, rt.ledger
  {
    rt.Valid() && Faithful(rt.codec, rt.checks.printing) && AllRepresentable(rt.codec, rt.journal)
  }

  /** Opening an intact directory again succeeds exactly when every committed record can be read back. Then it shows the
      live history, and the live view when the records read back as they were. */
  lemma RestartShowsLiveView(rt: Runtime)
    requires Readying(rt)
    ensures var o := Journal.ScanDisk(rt.ledger.hash, rt.ledger.disk, Journal.START);
      && o.Recovered?
      && (Restored(rt.codec, o.records).Some? <==> AllReadable(rt.checks.printing, rt.journal))
      && (Restored(rt.codec, o.records).Some? ==> SameHistories(rt.state, Restored(rt.codec, o.records).value))
      && (AllUnchanged(rt.checks.printing, rt.journal) ==>
            Restored(rt.codec, o.records).Some? && SameView(rt.state, Restored(rt.codec, o.records).value))
  {
    ValidHolds(rt);
    HoldingMeans(rt.codec, rt.checks.printing, rt.ledger, rt.journal);
    hide *;
    var l := rt.ledger;
    Ledgers.ReadsBack(l.hash, l.disk, l.placed, Journal.Mark(l.lastSequence + 1, l.chain));
    JournalRestores(rt.codec, rt.checks.printing, l.hash, rt.journal);
    RecoveryExact(rt.checks.printing, rt.journal);
    if Recovery(rt.checks.printing, rt.journal).Some? {
      HistoriesCarryOver(rt.state, Replay(rt.journal).value, Recovery(rt.checks.printing, rt.journal).value);
    }
  }

  /** A new directory and one attachment that passes the checks. */
  method AttachToNew(checks: Checks, submitted: EvidenceSet, incarnation: Id, epoch: nat, now: nat, hash: Frames.Hash, codec: Codec)
    returns (runtime: Runtime, attached: Result)
    requires submitted.entries != [] && checks.trusted(submitted.publisher)
    requires codec.payload(EvidenceAttached(Stamped(checks, submitted, incarnation, epoch, now))) == []
    ensures fresh(runtime) && fresh(runtime.ledger) && runtime.Valid() && runtime.codec == codec && runtime.checks == checks
    ensures runtime.ledger.hash == hash
    ensures attached.Accepted? && runtime.journal == [EvidenceAttached(Stamped(checks, submitted, incarnation, epoch, now))]
  {
    hide Mirrors, EvidenceOk, Nonempty, Stamped, LiveAttach, Ledgers.Ledger.Valid;
    runtime := new Runtime.Create(checks, codec, incarnation, epoch, hash);
    attached := runtime.AttachEvidence(submitted, now);
  }

  /** A new directory, one accepted attachment, and the next boot: it serves exactly when that record can be read back.
      Nothing that attaching checks ensures it; a set of generation 0 is accepted and stops every later boot. */
  method AttachThenReopen(checks: Checks, submitted: EvidenceSet, incarnation: Id, next: Id, epoch: nat, now: nat, hash: Frames.Hash)
    returns (attached: Result, reopened: Opened)
    requires submitted.entries != [] && checks.trusted(submitted.publisher)
    ensures attached.Accepted?
    ensures reopened.Serving? <==>
      Reread(checks.printing, EvidenceAttached(Stamped(checks, submitted, incarnation, epoch, now))).Some?
    ensures Documents.KeepsApart(checks.printing, Prepared(submitted, incarnation, epoch, now)) ==>
      (reopened.Serving? <==> Restorable(checks.printing, submitted, epoch, now))
    ensures submitted.generation == 0 ==> reopened.Refusing?
  {
    hide *;
    var e := EvidenceAttached(Stamped(checks, submitted, incarnation, epoch, now));
    var codec := Numbering(checks.printing, [e]);
    FaithfulCodecExists(checks.printing, [e]);
    FirstPlace(checks.printing, e);
    AttachmentReadable(checks, submitted, incarnation, epoch, now);
    var runtime;
    runtime, attached := AttachToNew(checks, submitted, incarnation, epoch, now, hash, codec);
    ReadyingOne(runtime, e);
    reopened := Open(checks, codec, next, epoch + 1, hash, runtime.ledger.disk);
    if submitted.generation == 0 {
      ZeroIsUnreadable(checks.printing, submitted, incarnation, epoch, now);
    }
  }

  lemma ReadyingOne(rt: Runtime, e: Event)
    requires rt.Valid() && rt.journal == [e] && Faithful(rt.codec, rt.checks.printing) && AllRepresentable(rt.codec, [e])
    ensures var o := Journal.ScanDisk(rt.ledger.hash, rt.ledger.disk, Journal.START);
      o.Recovered? && (Restored(rt.codec, o.records).Some? <==> Reread(rt.checks.printing, e).Some?)
  {
    RestartShowsLiveView(rt);
    hide *;
    OnlyOne(rt.checks.printing, e);
  }

  lemma FirstPlace(p: Documents.Printing, e: Event)
    ensures Numbering(p, [e]).payload(e) == []
  {
  }

  lemma OnlyOne(p: Documents.Printing, e: Event)
    ensures AllReadable(p, [e]) <==> Reread(p, e).Some?
  {
    hide Reread;
    assert e in [e];
  }

  lemma ZeroIsUnreadable(p: Documents.Printing, submitted: EvidenceSet, incarnation: Id, epoch: nat, now: nat)
    requires submitted.generation == 0
    ensures !Documents.FieldsReadable(p, Prepared(submitted, incarnation, epoch, now))
  {
  }

  lemma RepresentablePrefix(codec: Codec, events: seq<Event>, n: nat)
    requires n <= |events| && AllRepresentable(codec, events)
    ensures AllRepresentable(codec, events[..n])
  {
  }

  /** Cutting the last file at any byte: what is left recovers as a prefix of the committed events, which succeeds when
      those events can be read back. */
  lemma CrashRestoresPrefix(rt: Runtime, k: nat) returns (kept: nat)
    requires Readying(rt) && rt.ledger.disk != [] && k <= |rt.ledger.disk[|rt.ledger.disk| - 1]|
    ensures kept <= |rt.journal| && (k == |rt.ledger.disk[|rt.ledger.disk| - 1]| ==> kept == |rt.journal|)
    ensures var n := |rt.ledger.disk| - 1;
      var o := Journal.ScanDisk(rt.ledger.hash, rt.ledger.disk[..n] + [rt.ledger.disk[n][..k]], Journal.START);
      && o.Recovered?
      && (Restored(rt.codec, o.records).Some? <==> AllReadable(rt.checks.printing, rt.journal[..kept]))
      && (AllUnchanged(rt.checks.printing, rt.journal[..kept]) ==>
            Replay(rt.journal[..kept]).Some? && Restored(rt.codec, o.records) == Replay(rt.journal[..kept]))
  {
    ValidHolds(rt);
    hide *;
    kept := CrashedLedgerRestores(rt.codec, rt.checks.printing, rt.ledger, rt.journal, k);
    ReplayPrefix(rt.journal, kept);
    RecoveryExact(rt.checks.printing, rt.journal[..kept]);
  }

  lemma ValidHolds(rt: Runtime)
    requires Readying(rt)
    ensures Holding(rt.codec, rt.checks.printing, rt.ledger, rt.journal) && Replay(rt.journal).Some?
    ensures SameView(rt.state, Replay(rt.journal).value)
  {
    hide SameView, StateOk, Replay, EntriesOf, Faithful, EvidenceOk;
  }

  lemma CrashedLedgerRestores(codec: Codec, p: Documents.Printing, l: Ledgers.Ledger, events: seq<Event>, k: nat) returns (kept: nat)
    requires Holding(codec, p, l, events)
    requires l.disk != [] && k <= |l.disk[|l.disk| - 1]|
    ensures kept <= |events| && (k == |l.disk[|l.disk| - 1]| ==> kept == |events|)
    ensures var n := |l.disk| - 1;
      var o := Journal.ScanDisk(l.hash, l.disk[..n] + [l.disk[n][..k]], Journal.START);
      o.Recovered? && Restored(codec, o.records) == Recovery(p, events[..kept])
  {
    HoldingMeans(codec, p, l, events);
    hide *;
    kept := Ledgers.CrashOfLedger(l, k);
    EntriesPrefix(codec, events, kept);
    RepresentablePrefix(codec, events, kept);
    JournalRestores(codec, p, l.hash, events[..kept]);
  }

  lemma HoldingMeans(codec: Codec, p: Documents.Printing, l: Ledgers.Ledger, events: seq<Event>)
    requires Holding(codec, p, l, events)
    ensures Faithful(codec, p) && AllRepresentable(codec, events)
    ensures l.Valid() && l.Entries() == EntriesOf(codec, events) && |l.Entries()| == |events|
    ensures Ledgers.Bounded(l.hash, l.disk, l.placed, Journal.Mark(l.lastSequence + 1, l.chain))
    ensures l.Entries() == Journal.Flat(l.placed)
  {
    hide Faithful, AllRepresentable, Journal.DiskImage, Journal.After, Journal.Flat, Journal.Total, EntriesOf;
  }

  /** A crash while event e is being committed, with any j bytes of its frame written: opening recovers every
      acknowledged event, and e exactly when its frame is complete. */
  lemma AcknowledgedStepsSurvive(rt: Runtime, e: Event, segment: nat, j: nat)
    requires Readying(rt) && rt.codec.representable(e) && segment <= |rt.ledger.disk| <= segment + 1
    requires |rt.codec.payload(e)| <= Frames.MAX_RECORD_BYTES
    requires Ledgers.SizeOf(rt.ledger.disk, segment) + Frames.HEADER_BYTES + |rt.codec.payload(e)| <= Journal.MAX_SEGMENT_BYTES
    requires j <= Frames.HEADER_BYTES + |rt.codec.payload(e)|
    ensures var o, p := AfterTear(rt.codec, rt.ledger, e, segment, j), rt.checks.printing;
      && o.Recovered?
      && Restored(rt.codec, o.records)
           == Recovery(p, rt.journal + if j == Frames.HEADER_BYTES + |rt.codec.payload(e)| then [e] else [])
      && (j < Frames.HEADER_BYTES + |rt.codec.payload(e)| ==>
            && (Restored(rt.codec, o.records).Some? <==> AllReadable(p, rt.journal))
            && (AllUnchanged(p, rt.journal) ==>
                  Restored(rt.codec, o.records).Some? && SameView(rt.state, Restored(rt.codec, o.records).value)))
  {
    ValidHolds(rt);
    hide *;
    FrameBytesIs(rt.codec, e);
    TornLedgerRestores(rt.codec, rt.checks.printing, rt.ledger, rt.journal, e, segment, j);
    assert rt.journal + [] == rt.journal;
    RecoveryExact(rt.checks.printing, rt.journal);
  }

  /** What a reader finds after only j bytes of the frame of e were written. */
  ghost function AfterTear(codec: Codec, l: Ledgers.Ledger, e: Event, segment: nat, j: nat): Journal.Outcome
    reads l
    requires segment <= |l.disk| && j <= Frames.HEADER_BYTES + |codec.payload(e)|
  {
    var frame := Journal.FrameAt(l.hash, Journal.Mark(l.lastSequence + 1, l.chain), EntryOf(codec, e));
    Journal.ScanDisk(l.hash, Ledgers.Written(l.disk, segment, frame[..j]), Journal.START)
  }

  lemma TornLedgerRestores(codec: Codec, p: Documents.Printing, l: Ledgers.Ledger, events: seq<Event>, e: Event, segment: nat, j: nat)
    requires Holding(codec, p, l, events) && codec.representable(e) && segment <= |l.disk| <= segment + 1
    requires |codec.payload(e)| <= Frames.MAX_RECORD_BYTES
    requires Ledgers.SizeOf(l.disk, segment) + Journal.FrameBytes(EntryOf(codec, e)) <= Journal.MAX_SEGMENT_BYTES
    requires j <= Journal.FrameBytes(EntryOf(codec, e))
    ensures var o := AfterTear(codec, l, e, segment, j);
      o.Recovered? && Restored(codec, o.records) == Recovery(p, events + if j == Journal.FrameBytes(EntryOf(codec, e)) then [e] else [])
  {
    HoldingMeans(codec, p, l, events);
    EntryFits(codec, e);
    TearMeans(codec, l, e, segment, j);
    RepresentableOne(codec, events, e);
    hide *;
    var mark := Journal.Mark(l.lastSequence + 1, l.chain);
    Ledgers.CrashDuringAppend(l.hash, l.disk, l.placed, mark, segment, EntryOf(codec, e), j);
    if j == Journal.FrameBytes(EntryOf(codec, e)) {
      EntriesOfOne(codec, events, e);
      JournalRestores(codec, p, l.hash, events + [e]);
    } else {
      assert events + [] == events;
      assert EntriesOf(codec, events) + [] == EntriesOf(codec, events);
      JournalRestores(codec, p, l.hash, events);
    }
  }

  lemma RepresentableOne(codec: Codec, events: seq<Event>, e: Event)
    requires AllRepresentable(codec, events) && codec.representable(e)
    ensures AllRepresentable(codec, events + [e])
  {
  }

  lemma FrameBytesIs(codec: Codec, e: Event)
    ensures Journal.FrameBytes(EntryOf(codec, e)) == Frames.HEADER_BYTES + |codec.payload(e)|
  {
  }

  lemma TearMeans(codec: Codec, l: Ledgers.Ledger, e: Event, segment: nat, j: nat)
    requires segment <= |l.disk| && j <= Journal.FrameBytes(EntryOf(codec, e))
    ensures |Journal.FrameAt(l.hash, Journal.Mark(l.lastSequence + 1, l.chain), EntryOf(codec, e))| == Journal.FrameBytes(EntryOf(codec, e))
    ensures AfterTear(codec, l, e, segment, j)
         == Journal.ScanDisk(l.hash, Ledgers.Written(l.disk, segment,
              Journal.FrameAt(l.hash, Journal.Mark(l.lastSequence + 1, l.chain), EntryOf(codec, e))[..j]), Journal.START)
  {
    hide Journal.ScanDisk, Journal.FrameAt, Ledgers.Written;
  }

  lemma EntryFits(codec: Codec, e: Event)
    ensures |codec.payload(e)| <= Frames.MAX_RECORD_BYTES ==> EntryOf(codec, e).Valid()
  {
  }
}
