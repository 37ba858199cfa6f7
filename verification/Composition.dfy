/** Composing a base body with overlay layers. */
module Composition {
  import opened Options
  import opened Ordering
  import opened Contracts
  import opened Evaluation
  import opened Policy

  datatype Layer = Layer(name: string, scopes: seq<Scope>, requirements: seq<Requirement>)

  datatype Refusal =
    | TooManyLayers | DuplicateRequirement | OverlayInvalid | WeakeningDenied | CompositionConflict | EmptyRequirementSet

  datatype Composed = Accepted(body: Body) | Refused(code: Refusal)

  predicate SameConstraint(a: Requirement, b: Requirement) {
    && a.hasNumeric == b.hasNumeric
    && if a.hasNumeric then a.target == b.target && a.minimum == b.minimum
       else a.value == b.value && a.preferredValue == b.preferredValue
  }

  /** 1 when a is at least as strong, -1 when b is stronger, 0 when neither dominates. */
  function CompareStrength(a: Requirement, b: Requirement): int {
    if a.strength != b.strength then
      if a.strength.Level() > b.strength.Level() then 1 else -1
    else if a.hasNumeric && b.hasNumeric then
      var aDominates := if a.kind.IsFloor() then a.target >= b.target && a.minimum >= b.minimum
                        else a.target <= b.target && a.minimum <= b.minimum;
      var bDominates := if a.kind.IsFloor() then b.target >= a.target && b.minimum >= a.minimum
                        else b.target <= a.target && b.minimum <= a.minimum;
      if aDominates then 1 else if bDominates then -1 else 0
    else if !a.hasNumeric && !b.hasNumeric then
      if SameConstraint(a, b) then 1 else 0
    else 0
  }

  // ---------------------------------------------------------------------------
  // The reference: fold the requirements of all layers into a list
  // ---------------------------------------------------------------------------

  datatype Merged = Merged(requirements: seq<Requirement>) | Stopped(code: Refusal)

  function IndexOf(requirements: seq<Requirement>, key: Key): (i: nat)
    ensures i <= |requirements|
    ensures i < |requirements| ==> requirements[i].CompositeKey() == key
    ensures forall k :: 0 <= k < i ==> requirements[k].CompositeKey() != key
  {
    if requirements == [] then 0
    else if requirements[0].CompositeKey() == key then 0
    else 1 + IndexOf(requirements[1..], key)
  }

  function MergeOne(requirements: seq<Requirement>, incoming: Requirement): Merged {
    var i := IndexOf(requirements, incoming.CompositeKey());
    if i == |requirements| then Merged(requirements + [incoming])
    else
      var order := CompareStrength(incoming, requirements[i]);
      if order < 0 then Stopped(WeakeningDenied)
      else if order > 0 then Merged(requirements[i := incoming])
      else Stopped(CompositionConflict)
  }

  function MergeAll(requirements: seq<Requirement>, incoming: seq<Requirement>): Merged
    decreases |incoming|
  {
    if incoming == [] then Merged(requirements)
    else
      match MergeOne(requirements, incoming[0])
      case Stopped(code) => Stopped(code)
      case Merged(next) => MergeAll(next, incoming[1..])
  }

  function MergeLayers(requirements: seq<Requirement>, layers: seq<Layer>): Merged
    decreases |layers|
  {
    if layers == [] then Merged(requirements)
    else if layers[0].name == "" then Stopped(OverlayInvalid)
    else
      match MergeAll(requirements, layers[0].requirements)
      case Stopped(code) => Stopped(code)
      case Merged(next) => MergeLayers(next, layers[1..])
  }

  function AddScopes(scopes: seq<Scope>, incoming: seq<Scope>): (out: seq<Scope>)
    decreases |incoming|
  {
    if incoming == [] then scopes
    else AddScopes(if HasScope(scopes, incoming[0].name) then scopes else scopes + [incoming[0]], incoming[1..])
  }

  predicate HasScope(scopes: seq<Scope>, name: string) {
    exists s :: s in scopes && s.name == name
  }

  function LayerScopes(scopes: seq<Scope>, layers: seq<Layer>): seq<Scope>
    decreases |layers|
  {
    if layers == [] then scopes else LayerScopes(AddScopes(scopes, layers[0].scopes), layers[1..])
  }

  /** The composed body, ordered and with its identities derived again. */
  function Finished(ids: Identities, base: Body, scopes: seq<Scope>, requirements: seq<Requirement>): Body {
    var c := base.(scopes := Sort(NamePrecedes, scopes),
                   requirements := Sort(Precedes, CanonicalRequirements(ids, requirements)));
    c.(contractId := ids.contract(c.workload.id, BodyDigest(ids, c)))
  }

  /** The composition orders scopes by name alone. */
  predicate NamePrecedes(a: Scope, b: Scope) {
    TextLess(a.name, b.name)
  }

  ghost function ComposedBody(ids: Identities, base: Body, layers: seq<Layer>, maxLayers: nat): Composed {
    if |layers| > maxLayers then Refused(TooManyLayers)
    else if !DistinctKeys(base.requirements) then Refused(DuplicateRequirement)
    else
      match MergeLayers(base.requirements, layers)
      case Stopped(code) => Refused(code)
      case Merged(requirements) =>
        if requirements == [] then Refused(EmptyRequirementSet)
        else Accepted(Finished(ids, base, LayerScopes(base.scopes, layers), requirements))
  }

  // ---------------------------------------------------------------------------
  // Keys
  // ---------------------------------------------------------------------------

  function LayerKeys(layers: seq<Layer>): set<Key> {
    if layers == [] then {} else KeySet(layers[0].requirements) + LayerKeys(layers[1..])
  }

  lemma MergeOneKeys(requirements: seq<Requirement>, incoming: Requirement)
    requires DistinctKeys(requirements) && MergeOne(requirements, incoming).Merged?
    ensures var out := MergeOne(requirements, incoming).requirements;
      DistinctKeys(out) && KeySet(out) == KeySet(requirements) + {incoming.CompositeKey()}
  {
    hide CompareStrength;
    var out := MergeOne(requirements, incoming).requirements;
    var i := IndexOf(requirements, incoming.CompositeKey());
    if i < |requirements| {
      forall k | k in KeySet(requirements)
        ensures k in KeySet(out)
      {
        var j :| 0 <= j < |requirements| && requirements[j].CompositeKey() == k;
        assert out[j] in out && out[j].CompositeKey() == k;
      }
      forall k | k in KeySet(out)
        ensures k in KeySet(requirements)
      {
        var j :| 0 <= j < |out| && out[j].CompositeKey() == k;
        assert requirements[j] in requirements && requirements[j].CompositeKey() == k;
      }
      assert requirements[i] in requirements;
    } else {
      assert incoming in out;
      forall r | r in requirements
        ensures r in out
      {
      }
    }
  }

  lemma {:induction false} MergeAllKeys(requirements: seq<Requirement>, incoming: seq<Requirement>)
    requires DistinctKeys(requirements) && MergeAll(requirements, incoming).Merged?
    ensures var out := MergeAll(requirements, incoming).requirements;
      DistinctKeys(out) && KeySet(out) == KeySet(requirements) + KeySet(incoming)
    decreases |incoming|
  {
    if incoming != [] {
      hide MergeOne, DistinctKeys;
      MergeOneKeys(requirements, incoming[0]);
      MergeAllKeys(MergeOne(requirements, incoming[0]).requirements, incoming[1..]);
      KeySetCons(incoming);
    }
  }

  lemma KeySetCons(s: seq<Requirement>)
    requires s != []
    ensures KeySet(s) == {s[0].CompositeKey()} + KeySet(s[1..])
  {
    assert s == [s[0]] + s[1..];
  }

  lemma {:induction false} MergeLayersKeys(requirements: seq<Requirement>, layers: seq<Layer>)
    requires DistinctKeys(requirements) && MergeLayers(requirements, layers).Merged?
    ensures var out := MergeLayers(requirements, layers).requirements;
      DistinctKeys(out) && KeySet(out) == KeySet(requirements) + LayerKeys(layers)
    decreases |layers|
  {
    if layers != [] {
      hide DistinctKeys, KeySet, MergeAll;
      MergeAllKeys(requirements, layers[0].requirements);
      MergeLayersKeys(MergeAll(requirements, layers[0].requirements).requirements, layers[1..]);
    }
  }

  // ---------------------------------------------------------------------------
  // Strength
  // ---------------------------------------------------------------------------

  /** b has a's key and does not fall below it: a higher strength, or the same strength with bounds no weaker or
      the same texts. */
  predicate Reaches(a: Requirement, b: Requirement) {
    && a.CompositeKey() == b.CompositeKey()
    && b.strength.Level() >= a.strength.Level()
    && (b.strength == a.strength ==>
          && b.hasNumeric == a.hasNumeric
          && if a.hasNumeric then BoundsHold(a, b) else b.value == a.value && b.preferredValue == a.preferredValue)
  }

  lemma ReachesTransitive(a: Requirement, b: Requirement, c: Requirement)
    requires Reaches(a, b) && Reaches(b, c)
    ensures Reaches(a, c)
  {
  }

  /** The comparison accepts a replacement exactly when it reaches what it replaces, calls it weaker exactly when it
      falls strictly below, and calls the rest, incomparable bands included, a conflict. */
  lemma CompareIsReach(incoming: Requirement, held: Requirement)
    requires incoming.CompositeKey() == held.CompositeKey()
    ensures CompareStrength(incoming, held) > 0 <==> Reaches(held, incoming)
    ensures CompareStrength(incoming, held) < 0 <==> Reaches(incoming, held) && !Reaches(held, incoming)
  {
  }

  /** Position by position, and never shorter. */
  ghost predicate AllReach(before: seq<Requirement>, after: seq<Requirement>) {
    |before| <= |after| && forall i :: 0 <= i < |before| ==> Reaches(before[i], after[i])
  }

  lemma MergeOneReaches(requirements: seq<Requirement>, incoming: Requirement)
    requires MergeOne(requirements, incoming).Merged?
    ensures AllReach(requirements, MergeOne(requirements, incoming).requirements)
    ensures exists c :: c in MergeOne(requirements, incoming).requirements && Reaches(incoming, c)
  {
    hide CompareStrength;
    var out := MergeOne(requirements, incoming).requirements;
    var i := IndexOf(requirements, incoming.CompositeKey());
    if i < |requirements| {
      CompareIsReach(incoming, requirements[i]);
    }
    assert out[i] == incoming && Reaches(incoming, out[i]);
  }

  lemma AllReachTransitive(a: seq<Requirement>, b: seq<Requirement>, c: seq<Requirement>)
    requires AllReach(a, b) && AllReach(b, c)
    ensures AllReach(a, c)
  {
    hide Reaches;
    forall i | 0 <= i < |a|
      ensures Reaches(a[i], c[i])
    {
      ReachesTransitive(a[i], b[i], c[i]);
    }
  }

  lemma AllReachReflexive(a: seq<Requirement>)
    ensures AllReach(a, a)
  {
  }

  ghost predicate Reached(q: Requirement, out: seq<Requirement>) {
    exists c :: c in out && Reaches(q, c)
  }

  lemma ReachedLater(q: Requirement, mid: seq<Requirement>, out: seq<Requirement>)
    requires Reached(q, mid) && AllReach(mid, out)
    ensures Reached(q, out)
  {
    hide Reaches;
    var i :| 0 <= i < |mid| && Reaches(q, mid[i]);
    ReachesTransitive(q, mid[i], out[i]);
    assert out[i] in out;
  }

  lemma {:induction false} MergeAllReaches(requirements: seq<Requirement>, incoming: seq<Requirement>)
    requires MergeAll(requirements, incoming).Merged?
    ensures var out := MergeAll(requirements, incoming).requirements;
      AllReach(requirements, out) && forall q :: q in incoming ==> Reached(q, out)
    decreases |incoming|
  {
    if incoming == [] {
      AllReachReflexive(requirements);
    } else {
      hide MergeOne, AllReach, Reaches;
      var mid := MergeOne(requirements, incoming[0]).requirements;
      var out := MergeAll(requirements, incoming).requirements;
      MergeOneReaches(requirements, incoming[0]);
      MergeAllReaches(mid, incoming[1..]);
      AllReachTransitive(requirements, mid, out);
      ReachedLater(incoming[0], mid, out);
      assert incoming == [incoming[0]] + incoming[1..];
    }
  }

  ghost predicate LayersReached(layers: seq<Layer>, out: seq<Requirement>) {
    forall l, q :: l in layers && q in l.requirements ==> Reached(q, out)
  }

  lemma {:induction false} MergeLayersReaches(requirements: seq<Requirement>, layers: seq<Layer>)
    requires MergeLayers(requirements, layers).Merged?
    ensures var out := MergeLayers(requirements, layers).requirements;
      AllReach(requirements, out) && LayersReached(layers, out)
    decreases |layers|
  {
    if layers == [] {
      AllReachReflexive(requirements);
    } else {
      hide MergeAll, AllReach, Reached;
      var mid := MergeAll(requirements, layers[0].requirements).requirements;
      var out := MergeLayers(requirements, layers).requirements;
      MergeAllReaches(requirements, layers[0].requirements);
      MergeLayersReaches(mid, layers[1..]);
      AllReachTransitive(requirements, mid, out);
      forall q | q in layers[0].requirements
        ensures Reached(q, out)
      {
        ReachedLater(q, mid, out);
      }
      assert layers == [layers[0]] + layers[1..];
    }
  }

  // ---------------------------------------------------------------------------
  // Exactly when layers merge, and into what
  // ---------------------------------------------------------------------------

  /** What the layers say, in order. */
  function LayerMentions(layers: seq<Layer>): seq<Requirement> {
    if layers == [] then [] else layers[0].requirements + LayerMentions(layers[1..])
  }

  /** No later mention of a key falls below an earlier one. */
  ghost predicate NeverFalls(all: seq<Requirement>) {
    forall i, j :: 0 <= i < j < |all| && all[i].CompositeKey() == all[j].CompositeKey() ==> Reaches(all[i], all[j])
  }

  /** c is the last word on its key. */
  ghost predicate LastMention(all: seq<Requirement>, c: Requirement) {
    exists j :: 0 <= j < |all| && all[j] == c && forall k :: j < k < |all| ==> all[k].CompositeKey() != c.CompositeKey()
  }

  ghost predicate LastWord(held: seq<Requirement>, seen: seq<Requirement>) {
    DistinctKeys(held) && forall c :: c in held <==> LastMention(seen, c)
  }

  lemma LastMentionAppend(seen: seq<Requirement>, q: Requirement, c: Requirement)
    ensures LastMention(seen + [q], c) <==> c == q || (c.CompositeKey() != q.CompositeKey() && LastMention(seen, c))
  {
    var all := seen + [q];
    assert all[|seen|] == q;
    if c != q && LastMention(all, c) {
      var j :| 0 <= j < |all| && all[j] == c && forall k :: j < k < |all| ==> all[k].CompositeKey() != c.CompositeKey();
      assert seen[j] == c && forall k :: j < k < |seen| ==> seen[k] == all[k];
    }
    if c.CompositeKey() != q.CompositeKey() && LastMention(seen, c) {
      var j :| 0 <= j < |seen| && seen[j] == c && forall k :: j < k < |seen| ==> seen[k].CompositeKey() != c.CompositeKey();
      assert all[j] == c;
    }
  }

  /** Every key that is mentioned has a last mention, which the earlier ones lead up to. */
  lemma {:induction false} LastOf(seen: seq<Requirement>, i: nat) returns (c: Requirement)
    requires i < |seen| && NeverFalls(seen)
    ensures LastMention(seen, c) && c.CompositeKey() == seen[i].CompositeKey() && Reaches(seen[i], c)
    decreases |seen| - i
  {
    hide Reaches;
    if j :| i < j < |seen| && seen[j].CompositeKey() == seen[i].CompositeKey() {
      c := LastOf(seen, j);
      ReachesTransitive(seen[i], seen[j], c);
    } else {
      c := seen[i];
      ReachesReflexive(c);
    }
  }

  lemma ReachesReflexive(a: Requirement)
    ensures Reaches(a, a)
  {
  }

  lemma NeverFallsAppend(seen: seq<Requirement>, q: Requirement)
    ensures NeverFalls(seen + [q])
       <==> NeverFalls(seen)
            && forall i :: 0 <= i < |seen| && seen[i].CompositeKey() == q.CompositeKey() ==> Reaches(seen[i], q)
  {
    hide Reaches;
    var all := seen + [q];
    assert forall i :: 0 <= i < |seen| ==> all[i] == seen[i];
    assert all[|seen|] == q;
  }

  lemma MergeOneExactly(held: seq<Requirement>, seen: seq<Requirement>, q: Requirement)
    requires LastWord(held, seen) && NeverFalls(seen)
    ensures MergeOne(held, q).Merged? <==> NeverFalls(seen + [q])
    ensures MergeOne(held, q).Merged? ==> LastWord(MergeOne(held, q).requirements, seen + [q])
  {
    hide Reaches, CompareStrength, LastMention, NeverFalls;
    var i := IndexOf(held, q.CompositeKey());
    NeverFallsAppend(seen, q);
    if i < |held| {
      CompareIsReach(q, held[i]);
      ReachedByLast(held, seen, i, q);
    } else {
      Unmentioned(held, seen, q);
    }
    if MergeOne(held, q).Merged? {
      MergeOneKeys(held, q);
      forall c
        ensures c in MergeOne(held, q).requirements <==> LastMention(seen + [q], c)
      {
        LastMentionAppend(seen, q, c);
        HeldAfter(held, q, c);
      }
    }
  }

  lemma HeldAfter(held: seq<Requirement>, q: Requirement, c: Requirement)
    requires DistinctKeys(held) && MergeOne(held, q).Merged?
    ensures c in MergeOne(held, q).requirements <==> c == q || (c.CompositeKey() != q.CompositeKey() && c in held)
  {
    hide CompareStrength;
    var out := MergeOne(held, q).requirements;
    var i := IndexOf(held, q.CompositeKey());
    assert out[i] == q;
    if c.CompositeKey() != q.CompositeKey() && c in held {
      var k :| 0 <= k < |held| && held[k] == c;
      assert out[k] == c;
    }
  }

  lemma ReachedByLast(held: seq<Requirement>, seen: seq<Requirement>, at: nat, q: Requirement)
    requires LastWord(held, seen) && NeverFalls(seen)
    requires at < |held| && held[at].CompositeKey() == q.CompositeKey()
    ensures Reaches(held[at], q)
       <==> forall i :: 0 <= i < |seen| && seen[i].CompositeKey() == q.CompositeKey() ==> Reaches(seen[i], q)
  {
    hide Reaches, NeverFalls;
    var h := held[at];
    assert h in held && LastMention(seen, h);
    if Reaches(h, q) {
      forall i | 0 <= i < |seen| && seen[i].CompositeKey() == q.CompositeKey()
        ensures Reaches(seen[i], q)
      {
        var c := LastOf(seen, i);
        assert c in held;
        ReachesTransitive(seen[i], h, q);
      }
    }
  }

  lemma Unmentioned(held: seq<Requirement>, seen: seq<Requirement>, q: Requirement)
    requires LastWord(held, seen) && NeverFalls(seen) && IndexOf(held, q.CompositeKey()) == |held|
    ensures forall i :: 0 <= i < |seen| ==> seen[i].CompositeKey() != q.CompositeKey()
  {
    hide Reaches, NeverFalls, LastMention;
    forall i | 0 <= i < |seen|
      ensures seen[i].CompositeKey() != q.CompositeKey()
    {
      var c := LastOf(seen, i);
      assert c in held;
    }
  }

  lemma FallsForGood(seen: seq<Requirement>, more: seq<Requirement>)
    requires NeverFalls(seen + more)
    ensures NeverFalls(seen)
  {
    hide Reaches;
    assert forall i :: 0 <= i < |seen| ==> (seen + more)[i] == seen[i];
  }

  lemma {:induction false} MergeAllExactly(held: seq<Requirement>, seen: seq<Requirement>, incoming: seq<Requirement>)
    requires LastWord(held, seen) && NeverFalls(seen)
    ensures MergeAll(held, incoming).Merged? <==> NeverFalls(seen + incoming)
    ensures MergeAll(held, incoming).Merged? ==> LastWord(MergeAll(held, incoming).requirements, seen + incoming)
    decreases |incoming|
  {
    hide MergeOne, LastWord, NeverFalls;
    if incoming == [] {
      assert seen + incoming == seen;
    } else {
      var next := MergeOne(held, incoming[0]);
      assert seen + incoming == (seen + [incoming[0]]) + incoming[1..];
      MergeOneExactly(held, seen, incoming[0]);
      if next.Merged? {
        MergeAllExactly(next.requirements, seen + [incoming[0]], incoming[1..]);
      } else if NeverFalls(seen + incoming) {
        FallsForGood(seen + [incoming[0]], incoming[1..]);
      }
    }
  }

  lemma {:induction false} MergeLayersExactly(held: seq<Requirement>, seen: seq<Requirement>, layers: seq<Layer>)
    requires LastWord(held, seen) && NeverFalls(seen)
    ensures MergeLayers(held, layers).Merged?
       <==> (forall l :: l in layers ==> l.name != "") && NeverFalls(seen + LayerMentions(layers))
    ensures MergeLayers(held, layers).Merged? ==>
      LastWord(MergeLayers(held, layers).requirements, seen + LayerMentions(layers))
    decreases |layers|
  {
    hide MergeAll, LastWord, NeverFalls;
    if layers == [] {
      assert seen + LayerMentions(layers) == seen;
    } else {
      var next := MergeAll(held, layers[0].requirements);
      var now := seen + layers[0].requirements;
      assert seen + LayerMentions(layers) == now + LayerMentions(layers[1..]);
      assert layers == [layers[0]] + layers[1..];
      MergeAllExactly(held, seen, layers[0].requirements);
      if next.Merged? {
        MergeLayersExactly(next.requirements, now, layers[1..]);
      } else if NeverFalls(seen + LayerMentions(layers)) {
        FallsForGood(now, LayerMentions(layers[1..]));
      }
    }
  }

  lemma DistinctIsLastWord(base: seq<Requirement>)
    requires DistinctKeys(base)
    ensures LastWord(base, base) && NeverFalls(base)
  {
    hide Reaches;
    forall c | c in base
      ensures LastMention(base, c)
    {
      var j :| 0 <= j < |base| && base[j] == c;
    }
  }

  // ---------------------------------------------------------------------------
  // Ordering the result keeps its keys
  // ---------------------------------------------------------------------------

  lemma CanonicalReaches(ids: Identities, a: Requirement, c: Requirement)
    requires Reaches(a, c)
    ensures Reaches(a, CanonicalRequirement(ids, c)) && (a.strength.Required? && NoWeaker(a, c) ==> NoWeaker(a, CanonicalRequirement(ids, c)))
  {
    hide Sort, DeriveRequirementId;
  }

  lemma CanonicalKeySet(ids: Identities, s: seq<Requirement>)
    ensures KeySet(CanonicalRequirements(ids, s)) == KeySet(s)
  {
    var t := CanonicalRequirements(ids, s);
    forall k | k in KeySet(s)
      ensures k in KeySet(t)
    {
      var i :| 0 <= i < |s| && s[i].CompositeKey() == k;
      CanonicalAt(ids, s, i);
      assert t[i] in t;
    }
    forall k | k in KeySet(t)
      ensures k in KeySet(s)
    {
      var i :| 0 <= i < |t| && t[i].CompositeKey() == k;
      CanonicalAt(ids, s, i);
      assert s[i] in s;
    }
  }

  lemma FinishedKeys(ids: Identities, base: Body, scopes: seq<Scope>, out: seq<Requirement>)
    requires DistinctKeys(out)
    ensures var rs := Finished(ids, base, scopes, out).requirements;
      DistinctKeys(rs) && KeySet(rs) == KeySet(out) && Sorted(Precedes, rs)
  {
    hide DistinctKeys, KeySet, Sort, CanonicalRequirements;
    var each := CanonicalRequirements(ids, out);
    CanonicalKeys(ids, out);
    CanonicalKeySet(ids, out);
    SortPermutes(Precedes, each);
    DistinctPermute(each, Sort(Precedes, each));
    PrecedesIsOrder();
    RequirementTies(each);
    SortSorts(Precedes, each);
  }

  lemma FinishedReached(ids: Identities, base: Body, scopes: seq<Scope>, out: seq<Requirement>, q: Requirement)
    requires Reached(q, out)
    ensures Reached(q, Finished(ids, base, scopes, out).requirements)
  {
    hide Reaches, Sort, CanonicalRequirements, CanonicalRequirement;
    var each := CanonicalRequirements(ids, out);
    var i :| 0 <= i < |out| && Reaches(q, out[i]);
    CanonicalAt(ids, out, i);
    CanonicalReaches(ids, q, out[i]);
    SortPermutes(Precedes, each);
    SamePermutation(each, Sort(Precedes, each));
    assert each[i] in Sort(Precedes, each);
  }

  // ---------------------------------------------------------------------------
  // What a successful composition guarantees
  // ---------------------------------------------------------------------------

  /** The keys of the result are exactly those of the base and the layers, each once, in canonical order. */
  lemma ComposedKeys(ids: Identities, base: Body, layers: seq<Layer>, maxLayers: nat)
    requires ComposedBody(ids, base, layers, maxLayers).Accepted?
    ensures var rs := ComposedBody(ids, base, layers, maxLayers).body.requirements;
      && KeySet(rs) == KeySet(base.requirements) + LayerKeys(layers)
      && DistinctKeys(rs) && Sorted(Precedes, rs)
  {
    hide DistinctKeys, KeySet, Finished, MergeLayers, LayerScopes;
    var out := MergeLayers(base.requirements, layers).requirements;
    MergeLayersKeys(base.requirements, layers);
    FinishedKeys(ids, base, LayerScopes(base.scopes, layers), out);
  }

  /** No key falls: the result reaches every base requirement and every layer requirement. */
  lemma ComposedReaches(ids: Identities, base: Body, layers: seq<Layer>, maxLayers: nat)
    requires ComposedBody(ids, base, layers, maxLayers).Accepted?
    ensures var rs := ComposedBody(ids, base, layers, maxLayers).body.requirements;
      && (forall r :: r in base.requirements ==> Reached(r, rs))
      && LayersReached(layers, rs)
  {
    hide DistinctKeys, Reached, Finished, MergeLayers, LayerScopes;
    var scopes := LayerScopes(base.scopes, layers);
    var out := MergeLayers(base.requirements, layers).requirements;
    var rs := Finished(ids, base, scopes, out).requirements;
    MergeLayersReaches(base.requirements, layers);
    forall r | r in base.requirements
      ensures Reached(r, rs)
    {
      BaseReached(base.requirements, out, r);
      FinishedReached(ids, base, scopes, out, r);
    }
    forall l, q | l in layers && q in l.requirements
      ensures Reached(q, rs)
    {
      assert Reached(q, out);
      FinishedReached(ids, base, scopes, out, q);
    }
  }

  lemma BaseReached(before: seq<Requirement>, out: seq<Requirement>, r: Requirement)
    requires AllReach(before, out) && r in before
    ensures Reached(r, out)
  {
    hide Reaches;
    var i :| 0 <= i < |before| && before[i] == r;
    assert out[i] in out;
  }

  /** Composition succeeds exactly when every layer is named, something is required, and no mention of a key, in the
      base or in any layer, falls below an earlier one; and then the last mention of every key is the result. */
  lemma ComposedExactly(ids: Identities, base: Body, layers: seq<Layer>, maxLayers: nat)
    ensures var all, o := base.requirements + LayerMentions(layers), ComposedBody(ids, base, layers, maxLayers);
      && (o.Accepted? <==>
            && |layers| <= maxLayers && DistinctKeys(base.requirements) && (forall l :: l in layers ==> l.name != "")
            && all != [] && NeverFalls(all))
      && (o.Accepted? ==> forall c ::
            c in o.body.requirements <==> exists q :: LastMention(all, q) && CanonicalRequirement(ids, q) == c)
  {
    hide DistinctKeys, NeverFalls, MergeLayers, LayerScopes, Finished, LastMention, CanonicalRequirement;
    var all, merged := base.requirements + LayerMentions(layers), MergeLayers(base.requirements, layers);
    if |layers| <= maxLayers && DistinctKeys(base.requirements) {
      DistinctIsLastWord(base.requirements);
      MergeLayersExactly(base.requirements, base.requirements, layers);
      if merged.Merged? {
        NothingMentioned(merged.requirements, all);
        forall c
          ensures c in Finished(ids, base, LayerScopes(base.scopes, layers), merged.requirements).requirements
             <==> exists q :: LastMention(all, q) && CanonicalRequirement(ids, q) == c
        {
          FinishedFrom(ids, base, LayerScopes(base.scopes, layers), merged.requirements, c);
        }
      }
    }
  }

  /** A later mention of a key that falls strictly below an earlier one, or is incomparable to it. */
  ghost predicate Clash(all: seq<Requirement>, code: Refusal) {
    exists i, j :: 0 <= i < j < |all| && Clashes(all[i], all[j], code)
  }

  ghost predicate Clashes(held: Requirement, incoming: Requirement, code: Refusal) {
    && held.CompositeKey() == incoming.CompositeKey()
    && !Reaches(held, incoming)
    && code == if Reaches(incoming, held) then WeakeningDenied else CompositionConflict
  }

  lemma ClashStays(seen: seq<Requirement>, more: seq<Requirement>, code: Refusal)
    requires Clash(seen, code)
    ensures Clash(seen + more, code)
  {
    hide Clashes;
    var i, j :| 0 <= i < j < |seen| && Clashes(seen[i], seen[j], code);
    var all := seen + more;
    assert all[i] == seen[i] && all[j] == seen[j];
  }

  lemma MergeOneStops(held: seq<Requirement>, seen: seq<Requirement>, q: Requirement)
    requires LastWord(held, seen) && MergeOne(held, q).Stopped?
    ensures Clash(seen + [q], MergeOne(held, q).code)
  {
    hide Reaches, CompareStrength;
    var h := held[IndexOf(held, q.CompositeKey())];
    CompareIsReach(q, h);
    assert Clashes(h, q, MergeOne(held, q).code);
    assert LastMention(seen, h);
    var i :| 0 <= i < |seen| && seen[i] == h;
    var all := seen + [q];
    assert all[i] == h && all[|seen|] == q;
  }

  lemma {:induction false} MergeAllStops(held: seq<Requirement>, seen: seq<Requirement>, incoming: seq<Requirement>)
    requires LastWord(held, seen) && NeverFalls(seen) && MergeAll(held, incoming).Stopped?
    ensures Clash(seen + incoming, MergeAll(held, incoming).code)
    decreases |incoming|
  {
    hide MergeOne, LastWord, NeverFalls, Clash;
    var next := MergeOne(held, incoming[0]);
    var now := seen + [incoming[0]];
    assert seen + incoming == now + incoming[1..];
    if next.Merged? {
      MergeOneExactly(held, seen, incoming[0]);
      MergeAllStops(next.requirements, now, incoming[1..]);
    } else {
      MergeOneStops(held, seen, incoming[0]);
      ClashStays(now, incoming[1..], next.code);
    }
  }

  lemma {:induction false} MergeLayersStops(held: seq<Requirement>, seen: seq<Requirement>, layers: seq<Layer>)
    requires LastWord(held, seen) && NeverFalls(seen) && MergeLayers(held, layers).Stopped?
    ensures var code := MergeLayers(held, layers).code;
      if code == OverlayInvalid then exists l :: l in layers && l.name == ""
      else Clash(seen + LayerMentions(layers), code)
    decreases |layers|
  {
    hide MergeAll, LastWord, NeverFalls, Clash;
    var next := MergeAll(held, layers[0].requirements);
    var now := seen + layers[0].requirements;
    assert seen + LayerMentions(layers) == now + LayerMentions(layers[1..]);
    assert layers == [layers[0]] + layers[1..];
    if layers[0].name != "" {
      if next.Merged? {
        MergeAllExactly(held, seen, layers[0].requirements);
        MergeLayersStops(next.requirements, now, layers[1..]);
      } else {
        MergeAllStops(held, seen, layers[0].requirements);
        ClashStays(now, LayerMentions(layers[1..]), next.code);
        ClashCodes(now, next.code);
      }
    }
  }

  lemma ClashCodes(all: seq<Requirement>, code: Refusal)
    requires Clash(all, code)
    ensures code == WeakeningDenied || code == CompositionConflict
  {
  }

  /** Every refusal names its reason: a weakening is a mention strictly below an earlier one of its key, a conflict one
      that is incomparable to it. */
  lemma RefusalMeans(ids: Identities, base: Body, layers: seq<Layer>, maxLayers: nat)
    requires ComposedBody(ids, base, layers, maxLayers).Refused?
    ensures var code, all := ComposedBody(ids, base, layers, maxLayers).code, base.requirements + LayerMentions(layers);
      && (code == TooManyLayers <==> |layers| > maxLayers)
      && (code == DuplicateRequirement <==> |layers| <= maxLayers && !DistinctKeys(base.requirements))
      && (code == OverlayInvalid ==> exists l :: l in layers && l.name == "")
      && (code == EmptyRequirementSet ==> all == [] && forall l :: l in layers ==> l.name != "")
      && (code == WeakeningDenied || code == CompositionConflict ==> Clash(all, code))
  {
    hide DistinctKeys, NeverFalls, MergeLayers, LayerScopes, Finished, LastWord, Clash;
    var all, merged := base.requirements + LayerMentions(layers), MergeLayers(base.requirements, layers);
    if |layers| <= maxLayers && DistinctKeys(base.requirements) {
      DistinctIsLastWord(base.requirements);
      if merged.Merged? {
        MergeLayersExactly(base.requirements, base.requirements, layers);
        NothingMentioned(merged.requirements, all);
      } else {
        MergeLayersStops(base.requirements, base.requirements, layers);
        if merged.code != OverlayInvalid {
          ClashCodes(all, merged.code);
        }
      }
    }
  }

  lemma NothingMentioned(held: seq<Requirement>, all: seq<Requirement>)
    requires LastWord(held, all)
    ensures held == [] <==> all == []
  {
    if held != [] {
      assert held[0] in held && LastMention(all, held[0]);
    } else if all != [] {
      assert LastMention(all, all[|all| - 1]);
      assert false;
    }
  }

  lemma FinishedFrom(ids: Identities, base: Body, scopes: seq<Scope>, out: seq<Requirement>, c: Requirement)
    ensures c in Finished(ids, base, scopes, out).requirements <==> exists q :: q in out && CanonicalRequirement(ids, q) == c
  {
    hide Sort, CanonicalRequirements, CanonicalRequirement;
    var each := CanonicalRequirements(ids, out);
    SortPermutes(Precedes, each);
    SamePermutation(each, Sort(Precedes, each));
    if c in each {
      var i :| 0 <= i < |each| && each[i] == c;
      CanonicalAt(ids, out, i);
      assert out[i] in out;
    }
    if q :| q in out && CanonicalRequirement(ids, q) == c {
      var i :| 0 <= i < |out| && out[i] == q;
      CanonicalAt(ids, out, i);
      assert each[i] in each;
    }
  }

  // ---------------------------------------------------------------------------
  // The scopes of the result
  // ---------------------------------------------------------------------------

  /** The scopes the layers declare, in order. */
  function LayerDeclarations(layers: seq<Layer>): seq<Scope> {
    if layers == [] then [] else layers[0].scopes + LayerDeclarations(layers[1..])
  }

  ghost predicate Named(scopes: seq<Scope>, name: string) {
    exists i :: 0 <= i < |scopes| && scopes[i].name == name
  }

  /** The first declaration of a name that the base does not have. */
  ghost predicate FirstDeclared(base: seq<Scope>, declared: seq<Scope>, c: Scope) {
    !Named(base, c.name) && FirstOf(declared, c)
  }

  ghost predicate FirstOf(declared: seq<Scope>, c: Scope) {
    exists j :: 0 <= j < |declared| && declared[j] == c && forall k :: 0 <= k < j ==> declared[k].name != c.name
  }

  lemma NamedIsHas(scopes: seq<Scope>, name: string)
    ensures Named(scopes, name) <==> HasScope(scopes, name)
  {
    if Named(scopes, name) {
      var i :| 0 <= i < |scopes| && scopes[i].name == name;
      assert scopes[i] in scopes;
    }
    if HasScope(scopes, name) {
      var s :| s in scopes && s.name == name;
      var i :| 0 <= i < |scopes| && scopes[i] == s;
    }
  }

  lemma NamedOne(scopes: seq<Scope>, s: Scope, name: string)
    ensures Named(scopes + [s], name) <==> Named(scopes, name) || s.name == name
  {
    var all := scopes + [s];
    assert all[|scopes|] == s && forall i :: 0 <= i < |scopes| ==> all[i] == scopes[i];
  }

  lemma FirstOfStep(declared: seq<Scope>, c: Scope)
    requires declared != []
    ensures FirstOf(declared, c) <==> c == declared[0] || (c.name != declared[0].name && FirstOf(declared[1..], c))
  {
    var d, rest := declared[0], declared[1..];
    if FirstOf(declared, c) {
      var j :| 0 <= j < |declared| && declared[j] == c && forall k :: 0 <= k < j ==> declared[k].name != c.name;
      if j > 0 {
        assert rest[j - 1] == c && forall k :: 0 <= k < j - 1 ==> rest[k] == declared[k + 1];
      }
    }
    if c.name != d.name && FirstOf(rest, c) {
      var j :| 0 <= j < |rest| && rest[j] == c && forall k :: 0 <= k < j ==> rest[k].name != c.name;
      assert declared[j + 1] == c && forall k :: 1 <= k < j + 1 ==> declared[k] == rest[k - 1];
    }
  }

  /** Seen from the whole list of declarations, the first one is either kept or passed over. */
  lemma FirstDeclaredStep(base: seq<Scope>, declared: seq<Scope>, c: Scope)
    requires declared != []
    ensures FirstDeclared(base, declared, c)
       <==> if Named(base, declared[0].name) then FirstDeclared(base, declared[1..], c)
            else c == declared[0] || FirstDeclared(base + [declared[0]], declared[1..], c)
  {
    hide FirstOf, Named;
    NamedOne(base, declared[0], c.name);
    FirstOfStep(declared, c);
  }

  lemma {:induction false} AddScopesIs(base: seq<Scope>, declared: seq<Scope>)
    ensures base <= AddScopes(base, declared)
    ensures forall c :: c in AddScopes(base, declared) <==> c in base || FirstDeclared(base, declared, c)
    ensures DistinctScopes(base) ==> DistinctScopes(AddScopes(base, declared))
    decreases |declared|
  {
    hide FirstDeclared;
    if declared == [] {
      NothingDeclared(base);
    } else {
      var d := declared[0];
      var next := if HasScope(base, d.name) then base else base + [d];
      NamedIsHas(base, d.name);
      hide Named, HasScope;
      AddScopesIs(next, declared[1..]);
      forall c
        ensures FirstDeclared(base, declared, c)
           <==> if Named(base, d.name) then FirstDeclared(base, declared[1..], c)
                else c == d || FirstDeclared(base + [d], declared[1..], c)
      {
        FirstDeclaredStep(base, declared, c);
      }
      if !Named(base, d.name) {
        DistinctOne(base, d);
      }
    }
  }

  lemma NothingDeclared(base: seq<Scope>)
    ensures forall c :: !FirstDeclared(base, [], c)
  {
  }

  lemma DistinctOne(base: seq<Scope>, d: Scope)
    requires !Named(base, d.name)
    ensures DistinctScopes(base) ==> DistinctScopes(base + [d])
  {
  }

  lemma {:induction false} AddScopesConcat(base: seq<Scope>, a: seq<Scope>, b: seq<Scope>)
    ensures AddScopes(base, a + b) == AddScopes(AddScopes(base, a), b)
    decreases |a|
  {
    if a == [] {
      assert a + b == b;
    } else {
      assert (a + b)[0] == a[0] && (a + b)[1..] == a[1..] + b;
      AddScopesConcat(if HasScope(base, a[0].name) then base else base + [a[0]], a[1..], b);
    }
  }

  lemma {:induction false} LayersDeclare(base: seq<Scope>, layers: seq<Layer>)
    ensures LayerScopes(base, layers) == AddScopes(base, LayerDeclarations(layers))
    decreases |layers|
  {
    hide AddScopes;
    if layers == [] {
      NothingAdded(base);
    } else {
      LayersDeclare(AddScopes(base, layers[0].scopes), layers[1..]);
      AddScopesConcat(base, layers[0].scopes, LayerDeclarations(layers[1..]));
    }
  }

  lemma NothingAdded(base: seq<Scope>)
    ensures AddScopes(base, []) == base
  {
  }

  function Names(scopes: seq<Scope>): (out: seq<string>)
    ensures |out| == |scopes|
  {
    if scopes == [] then [] else [scopes[0].name] + Names(scopes[1..])
  }

  lemma {:induction false} NameAt(scopes: seq<Scope>, i: nat)
    requires i < |scopes|
    ensures Names(scopes)[i] == scopes[i].name
  {
    if i > 0 {
      NameAt(scopes[1..], i - 1);
    }
  }

  lemma {:induction false} InsertNames(s: Scope, scopes: seq<Scope>)
    ensures Names(Insert(NamePrecedes, s, scopes)) == Insert(TextLess, s.name, Names(scopes))
  {
    if scopes == [] {
      assert [s][1..] == [];
    } else if NamePrecedes(scopes[0], s) {
      InsertNames(s, scopes[1..]);
      var rest := Insert(NamePrecedes, s, scopes[1..]);
      assert ([scopes[0]] + rest)[1..] == rest && Names(scopes)[1..] == Names(scopes[1..]);
    } else {
      assert ([s] + scopes)[1..] == scopes;
    }
  }

  lemma {:induction false} SortNames(scopes: seq<Scope>)
    ensures Names(Sort(NamePrecedes, scopes)) == Sort(TextLess, Names(scopes))
  {
    if scopes != [] {
      SortNames(scopes[1..]);
      InsertNames(scopes[0], Sort(NamePrecedes, scopes[1..]));
      assert Names(scopes)[1..] == Names(scopes[1..]);
    }
  }

  /** Scopes are sorted by name even when names repeat. */
  lemma NamesSorted(scopes: seq<Scope>)
    ensures var rs := Sort(NamePrecedes, scopes);
      forall i, j :: 0 <= i < j < |rs| ==> !TextLess(rs[j].name, rs[i].name)
  {
    hide Names, TextLess, Sort;
    var rs := Sort(NamePrecedes, scopes);
    SortNames(scopes);
    PrecedesIsOrder();
    TextTies(Names(scopes));
    SortSorts(TextLess, Names(scopes));
    forall i, j | 0 <= i < j < |rs|
      ensures !TextLess(rs[j].name, rs[i].name)
    {
      NameAt(rs, i);
      NameAt(rs, j);
    }
  }

  lemma PrefixCounted(a: seq<Scope>, b: seq<Scope>)
    requires a <= b
    ensures multiset(a) <= multiset(b)
  {
    assert b == a + b[|a|..];
  }

  /** The scopes of the result: every base scope as it was, and for every name the base lacks its first declaration in
      the layers; nothing else, in the order of the names, and no name twice unless the base had it twice. */
  lemma ComposedScopes(ids: Identities, base: Body, layers: seq<Layer>, maxLayers: nat)
    requires ComposedBody(ids, base, layers, maxLayers).Accepted?
    ensures var rs := ComposedBody(ids, base, layers, maxLayers).body.scopes;
      && multiset(base.scopes) <= multiset(rs)
      && (forall c :: c in rs <==> c in base.scopes || FirstDeclared(base.scopes, LayerDeclarations(layers), c))
      && (forall i, j :: 0 <= i < j < |rs| ==> !TextLess(rs[j].name, rs[i].name))
      && (DistinctScopes(base.scopes) ==> DistinctScopes(rs))
  {
    hide MergeLayers, LayerScopes, Sort, CanonicalRequirements, BodyDigest, FirstDeclared, TextLess, AddScopes,
      DistinctScopes;
    var added := AddScopes(base.scopes, LayerDeclarations(layers));
    LayersDeclare(base.scopes, layers);
    AddScopesIs(base.scopes, LayerDeclarations(layers));
    PrefixCounted(base.scopes, added);
    NamesSorted(added);
    SortPermutes(NamePrecedes, added);
    SamePermutation(added, Sort(NamePrecedes, added));
    if DistinctScopes(base.scopes) {
      DistinctScopesPermute(added, Sort(NamePrecedes, added));
    }
  }

  lemma {:induction false} FirstOfName(declared: seq<Scope>, n: nat, name: string) returns (j: nat)
    requires n <= |declared| && exists k :: 0 <= k < n && declared[k].name == name
    ensures j < n && declared[j].name == name && forall k :: 0 <= k < j ==> declared[k].name != name
  {
    if k :| 0 <= k < n - 1 && declared[k].name == name {
      j := FirstOfName(declared, n - 1, name);
    } else {
      j := n - 1;
    }
  }

  /** The names are exactly those of the base and the layers. */
  lemma ComposedNames(ids: Identities, base: Body, layers: seq<Layer>, maxLayers: nat, name: string)
    requires ComposedBody(ids, base, layers, maxLayers).Accepted?
    ensures Named(ComposedBody(ids, base, layers, maxLayers).body.scopes, name)
       <==> Named(base.scopes, name) || Named(LayerDeclarations(layers), name)
  {
    hide ComposedBody;
    var rs, declared := ComposedBody(ids, base, layers, maxLayers).body.scopes, LayerDeclarations(layers);
    ComposedScopes(ids, base, layers, maxLayers);
    if Named(rs, name) {
      var i :| 0 <= i < |rs| && rs[i].name == name;
      assert rs[i] in rs;
    }
    if Named(base.scopes, name) {
      var i :| 0 <= i < |base.scopes| && base.scopes[i].name == name;
      assert base.scopes[i] in rs;
    } else if Named(declared, name) {
      var j := FirstOfName(declared, |declared|, name);
      assert FirstDeclared(base.scopes, declared, declared[j]);
      assert declared[j] in rs;
    }
  }

  /** With distinct names, ordering by name is the canonical order of scopes. */
  lemma NameOrderIsCanonical(scopes: seq<Scope>)
    requires DistinctScopes(scopes)
    ensures Sort(NamePrecedes, scopes) == Sort(ScopePrecedes, scopes)
  {
    hide Sort, TextLess;
    var rs, cs := Sort(NamePrecedes, scopes), Sort(ScopePrecedes, scopes);
    NamesSorted(scopes);
    SortPermutes(NamePrecedes, scopes);
    SortPermutes(ScopePrecedes, scopes);
    DistinctScopesPermute(scopes, rs);
    PrecedesIsOrder();
    ScopeTies(scopes);
    SortSorts(ScopePrecedes, scopes);
    ScopeTies(rs);
    assert Sorted(ScopePrecedes, rs);
    SortedUnique(ScopePrecedes, rs, cs);
  }

  /** The composed body is in canonical form: it is the canonical body of what was merged. */
  lemma ComposedIsCanonical(ids: Identities, base: Body, layers: seq<Layer>, maxLayers: nat)
    requires ComposedBody(ids, base, layers, maxLayers).Accepted? && DistinctScopes(base.scopes)
    ensures var out := MergeLayers(base.requirements, layers).requirements;
      ComposedBody(ids, base, layers, maxLayers).body
        == CanonicalBody(ids, base.(scopes := LayerScopes(base.scopes, layers), requirements := out))
  {
    hide MergeLayers, LayerScopes, Sort, CanonicalRequirements, BodyDigest, DistinctScopes, AddScopes;
    LayersDeclare(base.scopes, layers);
    AddScopesIs(base.scopes, LayerDeclarations(layers));
    NameOrderIsCanonical(LayerScopes(base.scopes, layers));
  }

  /** The place of a base requirement in the result. */
  lemma Successor(ids: Identities, base: Body, layers: seq<Layer>, maxLayers: nat, r: Requirement) returns (c: Requirement)
    requires ComposedBody(ids, base, layers, maxLayers).Accepted? && r in base.requirements
    ensures Lookup(ComposedBody(ids, base, layers, maxLayers).body.requirements, r.CompositeKey()) == Some(c)
    ensures Reaches(r, c)
  {
    hide ComposedBody, Lookup, Reaches;
    var rs := ComposedBody(ids, base, layers, maxLayers).body.requirements;
    ComposedKeys(ids, base, layers, maxLayers);
    ComposedReaches(ids, base, layers, maxLayers);
    c :| c in rs && Reaches(r, c);
    LookupUnique(rs, c);
    ReachesKey(r, c);
  }

  lemma ReachesKey(a: Requirement, b: Requirement)
    requires Reaches(a, b)
    ensures a.CompositeKey() == b.CompositeKey()
    ensures a.strength.Required? ==> NoWeaker(a, b) && (!a.hasNumeric ==> b.preferredValue == a.preferredValue)
  {
  }

  /** Evidence that satisfies the composed requirement satisfies the base's REQUIRED one. */
  lemma ComposedPreservesMeaning(ids: Identities, base: Body, layers: seq<Layer>, maxLayers: nat, r: Requirement,
                                 entry: Option<Entry>, current: Id)
    requires ComposedBody(ids, base, layers, maxLayers).Accepted?
    requires r in base.requirements && r.strength.Required? && r.WellFormed() && !r.kind.Collective?
    ensures var c := Lookup(ComposedBody(ids, base, layers, maxLayers).body.requirements, r.CompositeKey());
      c.Some? && (Satisfies(c.value, entry, current) ==> Satisfies(r, entry, current))
  {
    hide ComposedBody, Lookup, Decide, Reaches;
    var c := Successor(ids, base, layers, maxLayers, r);
    ReachesKey(r, c);
    if Satisfies(c, entry, current) {
      NoWeakerIsSound(r, c, entry, current);
    }
  }

  /** For a REQUIRED collective requirement of the base, evidence that satisfies the composed requirement satisfies the
      base's exactly when the last mention of its key dropped no member, or it asks for the absence of collectives. */
  lemma ComposedCollectives(ids: Identities, base: Body, layers: seq<Layer>, maxLayers: nat, r: Requirement, q: Requirement,
                            current: Id)
    requires ComposedBody(ids, base, layers, maxLayers).Accepted?
    requires r in base.requirements && r.strength.Required? && r.WellFormed() && r.kind.Collective?
    requires LastMention(base.requirements + LayerMentions(layers), q) && q.CompositeKey() == r.CompositeKey()
    ensures var c := Lookup(ComposedBody(ids, base, layers, maxLayers).body.requirements, r.CompositeKey());
      c.Some? && (Included(c.value, r, current) <==> r.value == "unsupported" || forall m :: m in r.members ==> m in q.members)
  {
    hide ComposedBody, Lookup, LastMention, Included, Reaches, CanonicalRequirement;
    var all := base.requirements + LayerMentions(layers);
    var c := Successor(ids, base, layers, maxLayers, r);
    ComposedExactly(ids, base, layers, maxLayers);
    var last :| LastMention(all, last) && CanonicalRequirement(ids, last) == c;
    CanonicalMembers(ids, last);
    LastUnique(all, q, last);
    ReachesKey(r, c);
    CollectiveIsExact(r, c, current);
  }

  lemma CanonicalMembers(ids: Identities, q: Requirement)
    ensures CanonicalRequirement(ids, q).CompositeKey() == q.CompositeKey()
    ensures forall m :: m in CanonicalRequirement(ids, q).members <==> m in q.members
  {
    hide Sort, DeriveRequirementId;
    SortPermutes(TextLess, q.members);
    SamePermutation(Sort(TextLess, q.members), q.members);
  }

  /** A layer that replaces a member composes, and satisfaction is lost. */
  lemma MembersMayChange(ids: Identities, w: Workload)
    ensures var base := Body(1, w, "", 1, 1, 1, 0, 0, "", [Scope("s", false, 0, "")], [CollectiveOf(["a"])]);
      var o := ComposedBody(ids, base, [Layer("overlay", [], [CollectiveOf(["b"])])], 8);
      var c := Lookup(o.body.requirements, CollectiveOf(["a"]).CompositeKey());
      o.Accepted? && c.Some? && !Included(c.value, CollectiveOf(["a"]), "me")
  {
    hide ComposedBody, Lookup, Included;
    var r, q := CollectiveOf(["a"]), CollectiveOf(["b"]);
    var base := Body(1, w, "", 1, 1, 1, 0, 0, "", [Scope("s", false, 0, "")], [r]);
    var layer := Layer("overlay", [], [q]);
    var all := [r] + LayerMentions([layer]);
    assert [layer][1..] == [] && LayerMentions([layer]) == [q] + LayerMentions([]);
    assert all == [r, q];
    assert Reaches(r, q) && NeverFalls(all) && DistinctKeys([r]);
    ComposedExactly(ids, base, [layer], 8);
    assert all[1] == q && LastMention(all, q);
    assert r in base.requirements && "a" in r.members;
    NotTheOther();
    ComposedCollectives(ids, base, [layer], 8, r, q, "me");
  }

  lemma NotTheOther()
    ensures "a" !in CollectiveOf(["b"]).members
  {
    assert "a"[0] != "b"[0];
  }

  /** When everything in the base is REQUIRED, the result is compatible with the base as its next generation. */
  lemma ComposedIsCompatible(ids: Identities, base: Body, layers: seq<Layer>, maxLayers: nat)
    requires ComposedBody(ids, base, layers, maxLayers).Accepted?
    requires forall r :: r in base.requirements ==> r.strength.Required?
    ensures CompatibleBodies(base, ComposedBody(ids, base, layers, maxLayers).body.(generation := base.generation + 1))
  {
    hide Lookup, MergeLayers, LayerScopes, Sort, DistinctKeys, BodyDigest;
    var next := ComposedBody(ids, base, layers, maxLayers).body.(generation := base.generation + 1);
    forall r | r in base.requirements
      ensures Carried(r, next)
    {
      var c := Successor(ids, base, layers, maxLayers, r);
      ReachesKey(r, c);
    }
  }

  /** q keeps the numeric form of r, with bounds no weaker. */
  predicate KeepsBounds(r: Requirement, q: Requirement) {
    q.hasNumeric == r.hasNumeric && (r.hasNumeric ==> BoundsHold(r, q))
  }

  /** In general the result is compatible with the base exactly when the last mention of every base key keeps its
      bounds. Strength, text and presence take care of themselves. */
  lemma ComposedCompatibleExactly(ids: Identities, base: Body, layers: seq<Layer>, maxLayers: nat)
    requires ComposedBody(ids, base, layers, maxLayers).Accepted?
    ensures var all := base.requirements + LayerMentions(layers);
      CompatibleBodies(base, ComposedBody(ids, base, layers, maxLayers).body.(generation := base.generation + 1))
      <==> forall r, q :: r in base.requirements && LastMention(all, q) && q.CompositeKey() == r.CompositeKey()
             ==> KeepsBounds(r, q)
  {
    hide Lookup, ComposedBody, LastMention, KeepsBounds, Carried;
    var all, o := base.requirements + LayerMentions(layers), ComposedBody(ids, base, layers, maxLayers).body;
    var next := o.(generation := base.generation + 1);
    ComposedHeader(ids, base, layers, maxLayers);
    ComposedExactly(ids, base, layers, maxLayers);
    forall r, q | r in base.requirements && LastMention(all, q) && q.CompositeKey() == r.CompositeKey()
      ensures Carried(r, next) <==> KeepsBounds(r, q)
    {
      var c := Successor(ids, base, layers, maxLayers, r);
      var last :| LastMention(all, last) && CanonicalRequirement(ids, last) == c;
      CanonicalBounds(ids, r, last);
      LastUnique(all, q, last);
      CarriedReached(r, c, next);
    }
    forall r | r in base.requirements
      ensures exists q :: LastMention(all, q) && q.CompositeKey() == r.CompositeKey()
    {
      var i :| 0 <= i < |base.requirements| && base.requirements[i] == r;
      var q := LastOf(all, i);
    }
  }

  lemma ComposedHeader(ids: Identities, base: Body, layers: seq<Layer>, maxLayers: nat)
    requires ComposedBody(ids, base, layers, maxLayers).Accepted?
    ensures var o := ComposedBody(ids, base, layers, maxLayers).body; o.major == base.major && o.workload == base.workload
  {
    hide MergeLayers, LayerScopes, Sort, BodyDigest, CanonicalRequirements;
  }

  lemma CanonicalBounds(ids: Identities, r: Requirement, q: Requirement)
    ensures CanonicalRequirement(ids, q).CompositeKey() == q.CompositeKey()
    ensures KeepsBounds(r, CanonicalRequirement(ids, q)) <==> KeepsBounds(r, q)
  {
    hide Sort, DeriveRequirementId;
  }

  lemma LastUnique(all: seq<Requirement>, p: Requirement, q: Requirement)
    requires LastMention(all, p) && LastMention(all, q) && p.CompositeKey() == q.CompositeKey()
    ensures p == q
  {
  }

  lemma CarriedReached(r: Requirement, c: Requirement, next: Body)
    requires Lookup(next.requirements, r.CompositeKey()) == Some(c) && Reaches(r, c)
    ensures Carried(r, next) <==> KeepsBounds(r, c)
  {
    hide Lookup;
  }

  function Bandwidth(strength: Strength, target: real, minimum: real): Requirement {
    Requirement("", "s", MinBandwidth, strength, true, target, minimum, "", "", [], [], "")
  }

  /** Without that, composition may hand on what compatibility refuses: a layer that turns a preference into a
      requirement is accepted whatever its bounds are. */
  lemma PreferenceMayWeaken(ids: Identities, w: Workload)
    ensures var base := Body(1, w, "", 1, 1, 1, 0, 0, "", [Scope("s", false, 0, "")], [Bandwidth(Preferred, 10.0, 8.0)]);
      var layer := Layer("overlay", [], [Bandwidth(Required, 1.0, 1.0)]);
      var o := ComposedBody(ids, base, [layer], 8);
      o.Accepted? && !CompatibleBodies(base, o.body.(generation := 2))
  {
    var base := Body(1, w, "", 1, 1, 1, 0, 0, "", [Scope("s", false, 0, "")], [Bandwidth(Preferred, 10.0, 8.0)]);
    var layer := Layer("overlay", [], [Bandwidth(Required, 1.0, 1.0)]);
    var held, q := base.requirements[0], layer.requirements[0];
    assert IndexOf([held], q.CompositeKey()) == 0;
    assert CompareStrength(q, held) == 1;
    assert MergeOne([held], q) == Merged([q]) by { assert [held][0 := q] == [q]; }
    assert [q][1..] == [] && [layer][1..] == [];
    assert MergeAll([held], [q]) == Merged([q]);
    assert MergeLayers([held], [layer]) == Merged([q]);
    WeakenedBandwidth(ids, base, layer, q);
  }

  lemma WeakenedBandwidth(ids: Identities, base: Body, layer: Layer, q: Requirement)
    requires base.requirements == [Bandwidth(Preferred, 10.0, 8.0)] && q == Bandwidth(Required, 1.0, 1.0)
    requires MergeLayers(base.requirements, [layer]) == Merged([q])
    ensures var o := ComposedBody(ids, base, [layer], 8);
      o.Accepted? && !CompatibleBodies(base, o.body.(generation := 2))
  {
    hide Sort, DeriveRequirementId, BodyDigest, LayerScopes, MergeLayers, Lookup;
    var o := ComposedBody(ids, base, [layer], 8);
    var c := CanonicalRequirement(ids, q);
    CanonicalOne(ids, q);
    SortPermutes(Precedes, [c]);
    SamePermutation([c], Sort(Precedes, [c]));
    assert o.body.requirements[0] in Sort(Precedes, [c]);
    assert o.body.requirements == [c];
    LookupUnique([c], c);
    assert !Carried(base.requirements[0], o.body.(generation := 2));
    assert base.requirements[0] in base.requirements;
  }

  // ---------------------------------------------------------------------------
  // The loops
  // ---------------------------------------------------------------------------

  /** The index holds the first position of every key. */
  ghost predicate Indexed(index: map<Key, nat>, requirements: seq<Requirement>) {
    && (forall key :: key in index <==> IndexOf(requirements, key) < |requirements|)
    && (forall key :: key in index ==> index[key] == IndexOf(requirements, key))
  }

  lemma {:induction false} IndexAppend(requirements: seq<Requirement>, r: Requirement, key: Key)
    ensures IndexOf(requirements + [r], key)
         == if IndexOf(requirements, key) < |requirements| then IndexOf(requirements, key)
            else if r.CompositeKey() == key then |requirements| else |requirements| + 1
  {
    if requirements == [] {
      assert [] + [r] == [r] && [r][1..] == [];
    } else {
      assert (requirements + [r])[0] == requirements[0] && (requirements + [r])[1..] == requirements[1..] + [r];
      IndexAppend(requirements[1..], r, key);
    }
  }

  lemma IndexedAppend(index: map<Key, nat>, requirements: seq<Requirement>, r: Requirement)
    requires Indexed(index, requirements) && r.CompositeKey() !in index
    ensures Indexed(index[r.CompositeKey() := |requirements|], requirements + [r])
  {
    forall key
      ensures IndexOf(requirements + [r], key)
           == if IndexOf(requirements, key) < |requirements| then IndexOf(requirements, key)
              else if r.CompositeKey() == key then |requirements| else |requirements| + 1
    {
      IndexAppend(requirements, r, key);
    }
  }

  lemma {:induction false} IndexUpdate(requirements: seq<Requirement>, i: nat, r: Requirement, key: Key)
    requires i < |requirements| && requirements[i].CompositeKey() == r.CompositeKey()
    ensures IndexOf(requirements[i := r], key) == IndexOf(requirements, key)
  {
    if i > 0 {
      assert requirements[i := r][0] == requirements[0] && requirements[i := r][1..] == requirements[1..][i - 1 := r];
      IndexUpdate(requirements[1..], i - 1, r, key);
    } else {
      assert requirements[0 := r][1..] == requirements[1..];
    }
  }

  lemma IndexedUpdate(index: map<Key, nat>, requirements: seq<Requirement>, i: nat, r: Requirement)
    requires Indexed(index, requirements) && i < |requirements| && requirements[i].CompositeKey() == r.CompositeKey()
    ensures Indexed(index, requirements[i := r])
  {
    forall key
      ensures IndexOf(requirements[i := r], key) == IndexOf(requirements, key)
    {
      IndexUpdate(requirements, i, r, key);
    }
  }

  /** Builds the key index of the base; a repeated key is an error. */
  method IndexBase(requirements: seq<Requirement>) returns (distinct: bool, index: map<Key, nat>)
    ensures distinct <==> DistinctKeys(requirements)
    ensures distinct ==> Indexed(index, requirements)
  {
    hide IndexOf;
    index := map[];
    IndexedNone();
    for i := 0 to |requirements|
      invariant Indexed(index, requirements[..i]) && DistinctKeys(requirements[..i])
    {
      var key := requirements[i].CompositeKey();
      assert requirements[..i + 1] == requirements[..i] + [requirements[i]];
      IndexedKeys(index, requirements[..i], key);
      if key in index {
        assert requirements[index[key]].CompositeKey() == key;
        return false, index;
      }
      IndexedAppend(index, requirements[..i], requirements[i]);
      index := index[key := i];
    }
    assert requirements[..|requirements|] == requirements;
    distinct := true;
  }

  lemma IndexedNone()
    ensures Indexed(map[], [])
  {
  }

  lemma IndexedKeys(index: map<Key, nat>, requirements: seq<Requirement>, key: Key)
    requires Indexed(index, requirements)
    ensures key in index <==> exists k :: 0 <= k < |requirements| && requirements[k].CompositeKey() == key
    ensures key in index ==> index[key] < |requirements| && requirements[index[key]].CompositeKey() == key
  {
  }

  /** Merges the requirements of one layer. */
  method MergeLayer(requirements: seq<Requirement>, known: map<Key, nat>, incoming: seq<Requirement>)
    returns (out: Merged, index: map<Key, nat>)
    requires Indexed(known, requirements)
    ensures out == MergeAll(requirements, incoming)
    ensures out.Merged? ==> Indexed(index, out.requirements)
  {
    hide Indexed, IndexOf, CompareStrength;
    index := known;
    var held := requirements;
    assert incoming[0..] == incoming;
    for i := 0 to |incoming|
      invariant Indexed(index, held)
      invariant MergeAll(requirements, incoming) == MergeAll(held, incoming[i..])
    {
      var q := incoming[i];
      assert incoming[i..][0] == q && incoming[i..][1..] == incoming[i + 1..];
      IndexedPlace(index, held, q.CompositeKey());
      if q.CompositeKey() !in index {
        IndexedAppend(index, held, q);
        index := index[q.CompositeKey() := |held|];
        held := held + [q];
      } else {
        var at := index[q.CompositeKey()];
        var order := CompareStrength(q, held[at]);
        WeakerComparesLess(q, held[at]);
        if q.strength.Level() < held[at].strength.Level() || order < 0 {
          return Stopped(WeakeningDenied), index;
        }
        if order == 0 {
          return Stopped(CompositionConflict), index;
        }
        IndexedUpdate(index, held, at, q);
        held := held[at := q];
      }
    }
    assert incoming[|incoming|..] == [];
    out := Merged(held);
  }

  lemma IndexedPlace(index: map<Key, nat>, requirements: seq<Requirement>, key: Key)
    requires Indexed(index, requirements)
    ensures key in index <==> IndexOf(requirements, key) < |requirements|
    ensures key in index ==> index[key] == IndexOf(requirements, key) && requirements[index[key]].CompositeKey() == key
    ensures key !in index ==> IndexOf(requirements, key) == |requirements|
  {
  }

  /** The explicit strength check before the comparison adds nothing to it. */
  lemma WeakerComparesLess(a: Requirement, b: Requirement)
    ensures a.strength.Level() < b.strength.Level() ==> CompareStrength(a, b) < 0
  {
  }

  /** Appends the first declaration of every new name, and nothing else. */
  method MergeScopes(scopes: seq<Scope>, incoming: seq<Scope>) returns (out: seq<Scope>)
    ensures out == AddScopes(scopes, incoming)
    ensures scopes <= out && forall c :: c in out <==> c in scopes || FirstDeclared(scopes, incoming, c)
  {
    hide FirstDeclared;
    AddScopesIs(scopes, incoming);
    out := scopes;
    assert incoming[0..] == incoming;
    for i := 0 to |incoming|
      invariant AddScopes(scopes, incoming) == AddScopes(out, incoming[i..])
    {
      assert incoming[i..][0] == incoming[i] && incoming[i..][1..] == incoming[i + 1..];
      if !HasScope(out, incoming[i].name) {
        out := out + [incoming[i]];
      }
    }
    assert incoming[|incoming|..] == [];
  }

  method Compose(ids: Identities, base: Body, layers: seq<Layer>, maxLayers: nat) returns (r: Composed)
    ensures r == ComposedBody(ids, base, layers, maxLayers)
    ensures r.Accepted? <==>
      && |layers| <= maxLayers && DistinctKeys(base.requirements) && (forall l :: l in layers ==> l.name != "")
      && base.requirements + LayerMentions(layers) != [] && NeverFalls(base.requirements + LayerMentions(layers))
    ensures r.Accepted? ==> forall c :: c in r.body.scopes
                                   <==> c in base.scopes || FirstDeclared(base.scopes, LayerDeclarations(layers), c)
  {
    hide DistinctKeys, MergeAll, AddScopes, Sort, CanonicalRequirements, Indexed, FirstDeclared, NeverFalls;
    ComposedExactly(ids, base, layers, maxLayers);
    if |layers| > maxLayers {
      return Refused(TooManyLayers);
    }
    var distinct, index := IndexBase(base.requirements);
    if !distinct {
      return Refused(DuplicateRequirement);
    }
    var scopes, requirements := base.scopes, base.requirements;
    assert layers[0..] == layers;
    for i := 0 to |layers|
      invariant Indexed(index, requirements)
      invariant MergeLayers(base.requirements, layers) == MergeLayers(requirements, layers[i..])
      invariant LayerScopes(base.scopes, layers) == LayerScopes(scopes, layers[i..])
    {
      var layer := layers[i];
      assert layers[i..][0] == layer && layers[i..][1..] == layers[i + 1..];
      if layer.name == "" {
        return Refused(OverlayInvalid);
      }
      scopes := MergeScopes(scopes, layer.scopes);
      var merged: Merged;
      merged, index := MergeLayer(requirements, index, layer.requirements);
      if merged.Stopped? {
        return Refused(merged.code);
      }
      requirements := merged.requirements;
    }
    assert layers[|layers|..] == [];
    ghost var out := requirements;
    MergeLayersKeys(base.requirements, layers);
    FinishedKeys(ids, base, scopes, out);
    requirements := CanonicalizeEach(ids, requirements);
    scopes := Sort(NamePrecedes, scopes);
    requirements := Sort(Precedes, requirements);
    var composed := base.(scopes := scopes, requirements := requirements);
    composed := composed.(contractId := ids.contract(composed.workload.id, BodyDigest(ids, composed)));
    if |requirements| == 0 {
      return Refused(EmptyRequirementSet);
    }
    DistinctNeighbours(requirements);
    for i := 1 to |requirements| {
      if requirements[i].CompositeKey() == requirements[i - 1].CompositeKey() {
        assert false;
      }
    }
    r := Accepted(composed);
    ComposedScopes(ids, base, layers, maxLayers);
  }

  lemma DistinctNeighbours(requirements: seq<Requirement>)
    requires DistinctKeys(requirements)
    ensures forall i :: 1 <= i < |requirements| ==> requirements[i].CompositeKey() != requirements[i - 1].CompositeKey()
  {
  }
}
