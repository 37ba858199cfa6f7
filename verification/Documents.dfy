/** Evidence as it comes back from its document: what the reader makes of a set that was written. */
module Documents {
  import opened Options
  import opened Ordering
  import opened Contracts
  import opened Evaluation

  /** What the document form depends on and this model leaves open: which strings are valid text, what the printed
      form of a number reads as, and the identity derived from the printed form of a set. */
  datatype Printing = Printing(text: string -> bool, number: real -> Option<real>, identity: EvidenceSet -> Id)

  const MAX_INT64: nat := 0x7FFF_FFFF_FFFF_FFFF
  const MAX_MILLIS: nat := 0x1000_0000_0000_0000
  const MAX_ENTRIES: nat := 4096
  const MAX_STRING_BYTES: nat := 4096
  const MAX_ATTRIBUTES: nat := 32
  const MAX_PARAMETER: real := 1_000_000_000_000_000.0

  predicate BoundedText(p: Printing, s: string) {
    |s| <= MAX_STRING_BYTES && p.text(s)
  }

  // ---------------------------------------------------------------------------
  // The reader
  // ---------------------------------------------------------------------------

  predicate NumberReadable(p: Printing, x: Option<real>) {
    x.Some? ==> p.number(x.value).Some? && 0.0 <= p.number(x.value).value <= MAX_PARAMETER
  }

  function NumberBack(p: Printing, x: Option<real>): Option<real> {
    if x.None? then None else p.number(x.value)
  }

  predicate TextReadable(p: Printing, x: Option<string>) {
    x.Some? ==> x.value != "" && BoundedText(p, x.value)
  }

  predicate AttributesReadable(p: Printing, attributes: seq<(string, string)>) {
    && |attributes| <= MAX_ATTRIBUTES
    && (forall a :: a in attributes ==> BoundedText(p, a.0) && BoundedText(p, a.1))
    && (forall i, j :: 0 <= i < j < |attributes| ==> attributes[i].0 != attributes[j].0)
  }

  /** A candidate without any dimension is written as null, which is not read as a candidate. */
  predicate CandidateReadable(p: Printing, c: Candidate) {
    && c != NOTHING
    && NumberReadable(p, c.minBandwidth) && NumberReadable(p, c.maxLatency) && NumberReadable(p, c.maxJitter)
    && NumberReadable(p, c.maxLoss) && NumberReadable(p, c.pathDiversity)
    && NumberReadable(p, c.failureDomainSeparation) && NumberReadable(p, c.trafficPriority)
    && NumberReadable(p, c.burstAllowance)
    && TextReadable(p, c.locality) && TextReadable(p, c.securityClass)
    && TextReadable(p, c.disaggregatedAffinity) && TextReadable(p, c.maintenanceTolerance)
    && AttributesReadable(p, c.attributes)
  }

  /** Numbers come back as their text reads, attributes in the order of their names. */
  function CandidateBack(p: Printing, c: Candidate): Candidate {
    c.(minBandwidth := NumberBack(p, c.minBandwidth), maxLatency := NumberBack(p, c.maxLatency),
       maxJitter := NumberBack(p, c.maxJitter), maxLoss := NumberBack(p, c.maxLoss),
       pathDiversity := NumberBack(p, c.pathDiversity),
       failureDomainSeparation := NumberBack(p, c.failureDomainSeparation),
       trafficPriority := NumberBack(p, c.trafficPriority), burstAllowance := NumberBack(p, c.burstAllowance),
       attributes := Sort(AttributePrecedes, c.attributes))
  }

  predicate EntryReadable(p: Printing, e: Entry) {
    && e.scope != "" && BoundedText(p, e.scope)
    && e.generation <= MAX_INT64 && e.epoch <= MAX_INT64 && e.producedAt <= MAX_MILLIS
    && CandidateReadable(p, e.candidate)
  }

  /** The identity of an entry is written and never read. */
  function EntryBack(p: Printing, e: Entry): Entry {
    e.(id := NoId(), candidate := CandidateBack(p, e.candidate))
  }

  predicate FieldsReadable(p: Printing, s: EvidenceSet) {
    && 1 <= s.generation <= MAX_INT64 && s.epoch <= MAX_INT64 && s.producedAt <= MAX_MILLIS
    && |s.entries| <= MAX_ENTRIES
    && forall e :: e in s.entries ==> EntryReadable(p, e)
  }

  /** The set as read, before its identity is filled in. */
  function Blank(p: Printing, s: EvidenceSet): EvidenceSet {
    s.(evidenceId := NoId(), entries := seq(|s.entries|, i requires 0 <= i < |s.entries| => EntryBack(p, s.entries[i])))
  }

  /** Reading what was written for a set: nothing when a field is out of bounds or a declared identity is not the one
      derived from what was read. An identity of all zeros declares nothing. */
  function ReadBack(p: Printing, s: EvidenceSet): Option<EvidenceSet> {
    var blank := Blank(p, s);
    var id := p.identity(blank);
    if !FieldsReadable(p, s) then None
    else if s.evidenceId != NoId() && s.evidenceId != id then None
    else Some(blank.(evidenceId := id))
  }

  /** Reading keeps what replay looks at. */
  lemma ReadBackKeeps(p: Printing, s: EvidenceSet)
    requires ReadBack(p, s).Some?
    ensures var out := ReadBack(p, s).value;
      && out.generation == s.generation && |out.entries| == |s.entries|
      && forall i :: 0 <= i < |s.entries| ==> out.entries[i].scope == s.entries[i].scope
  {
    hide FieldsReadable, CandidateBack;
  }

  // ---------------------------------------------------------------------------
  // Sets in canonical form
  // ---------------------------------------------------------------------------

  predicate NumberSurvives(p: Printing, x: Option<real>) {
    NumberBack(p, x) == x
  }

  predicate CandidateCanonical(p: Printing, c: Candidate) {
    && NumberSurvives(p, c.minBandwidth) && NumberSurvives(p, c.maxLatency) && NumberSurvives(p, c.maxJitter)
    && NumberSurvives(p, c.maxLoss) && NumberSurvives(p, c.pathDiversity)
    && NumberSurvives(p, c.failureDomainSeparation) && NumberSurvives(p, c.trafficPriority)
    && NumberSurvives(p, c.burstAllowance)
    && forall i, j :: 0 <= i < j < |c.attributes| ==> TextLess(c.attributes[i].0, c.attributes[j].0)
  }

  /** What a writer that canonicalises produces: no identities, numbers that survive their text, sorted attributes. */
  predicate InCanonicalForm(p: Printing, s: EvidenceSet) {
    && s.evidenceId == NoId()
    && forall e :: e in s.entries ==> e.id == NoId() && CandidateCanonical(p, e.candidate)
  }

  lemma CandidateUnchanged(p: Printing, c: Candidate)
    requires CandidateReadable(p, c)
    ensures CandidateBack(p, c) == c <==> CandidateCanonical(p, c)
  {
    hide NumberReadable, TextReadable, BoundedText;
    AttributesUnchanged(c.attributes);
  }

  lemma AttributesUnchanged(attributes: seq<(string, string)>)
    requires DistinctNames(attributes)
    ensures Sort(AttributePrecedes, attributes) == attributes
       <==> forall i, j :: 0 <= i < j < |attributes| ==> TextLess(attributes[i].0, attributes[j].0)
  {
    hide TextLess, Sort;
    PrecedesIsOrder();
    AttributeTies(attributes);
    SortSorts(AttributePrecedes, attributes);
    SortPermutes(AttributePrecedes, attributes);
    forall i, j | 0 <= i < j < |attributes|
      ensures TextLess(attributes[i].0, attributes[j].0) || TextLess(attributes[j].0, attributes[i].0)
      ensures TextLess(attributes[i].0, attributes[j].0) ==> !TextLess(attributes[j].0, attributes[i].0)
    {
      TextTotal(attributes[i].0, attributes[j].0);
      TextPair(attributes[i].0, attributes[j].0);
    }
    if Sorted(AttributePrecedes, attributes) {
      SortedUnique(AttributePrecedes, attributes, Sort(AttributePrecedes, attributes));
    }
  }

  /** Exactly the canonical sets come back as they were, up to the identity filled in. */
  lemma BlankUnchanged(p: Printing, s: EvidenceSet)
    requires FieldsReadable(p, s)
    ensures Blank(p, s) == s <==> InCanonicalForm(p, s)
  {
    hide CandidateReadable, CandidateBack, CandidateCanonical;
    forall e | e in s.entries
      ensures EntryBack(p, e) == e <==> e.id == NoId() && CandidateCanonical(p, e.candidate)
    {
      CandidateUnchanged(p, e.candidate);
    }
    var blank := Blank(p, s);
    assert forall i :: 0 <= i < |s.entries| ==> s.entries[i] in s.entries && blank.entries[i] == EntryBack(p, s.entries[i]);
    if InCanonicalForm(p, s) {
      assert blank.entries == s.entries;
    } else if blank == s {
      assert forall i :: 0 <= i < |s.entries| ==> EntryBack(p, s.entries[i]) == s.entries[i];
    }
  }

  // ---------------------------------------------------------------------------
  // Sets whose identity was derived
  // ---------------------------------------------------------------------------

  /** The derivation does not confuse this set with what a reader makes of it, and does not yield the zero identity. */
  predicate KeepsApart(p: Printing, s: EvidenceSet) {
    && p.identity(s) != NoId()
    && (p.identity(s) == p.identity(Blank(p, s)) ==> s == Blank(p, s))
  }

  /** A set whose identity was derived while it still carried the identity submitted: read back exactly when the fields
      are in bounds and that derivation agrees with the one over what is read. */
  lemma DerivedReadable(p: Printing, s: EvidenceSet)
    ensures ReadBack(p, s.(evidenceId := p.identity(s))).Some?
       <==> FieldsReadable(p, s) && (p.identity(s) == NoId() || p.identity(s) == p.identity(Blank(p, s)))
  {
    hide EntryReadable, CandidateBack;
    SameFields(p, s, p.identity(s));
  }

  lemma SameFields(p: Printing, s: EvidenceSet, id: Id)
    ensures FieldsReadable(p, s.(evidenceId := id)) <==> FieldsReadable(p, s)
    ensures Blank(p, s.(evidenceId := id)) == Blank(p, s)
  {
    hide EntryReadable, EntryBack;
    assert Blank(p, s.(evidenceId := id)).entries == Blank(p, s).entries;
  }

  /** Without a collision: exactly the canonical sets within bounds, and those come back unchanged. */
  lemma DerivedReadableExactly(p: Printing, s: EvidenceSet)
    requires KeepsApart(p, s)
    ensures var stamped := s.(evidenceId := p.identity(s));
      && (ReadBack(p, stamped).Some? <==> FieldsReadable(p, s) && InCanonicalForm(p, s))
      && (ReadBack(p, stamped).Some? ==> ReadBack(p, stamped) == Some(stamped))
  {
    hide FieldsReadable, InCanonicalForm, Blank;
    var id := p.identity(s);
    DerivedReadable(p, s);
    SameFields(p, s, id);
    if FieldsReadable(p, s) {
      BlankUnchanged(p, s);
    }
  }
}
