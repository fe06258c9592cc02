/** correlation/engine.py: `correlate`, its exact rules and candidates, and `contradictions`. */
module Correlation {
  import opened Wrappers
  import opened Sorting
  import opened Listing

  /** `entityType` is the alphabetical rank of the type's value, `entityId` the identifier. */
  datatype Reference = Reference(entityType: nat, entityId: nat)

  datatype Attribute =
    | CveIds | IndicatorKeys | CpeKeys | ProductKeys | AttackIds | ContentHashes | ProviderIdentifiers
    | ValidatedInfrastructure | Infrastructure | MalwareNames | ToolNames | CampaignNames | ActorAliases
    | Behaviors | Sectors | Geographies

  datatype Assertion = Assertion(claim: string, value: string, evidence: seq<nat>)

  datatype Similarity = Similarity(candidate: Reference, score: real, evidence: seq<nat>)

  datatype Entity = Entity(
    reference: Reference,
    keys: map<Attribute, seq<string>>,
    firstSeen: Option<int>,
    lastSeen: Option<int>,
    evidence: seq<nat>,
    assertions: seq<Assertion>,
    similarities: seq<Similarity>)

  datatype Relationship = Relationship(
    id: nat, rule: string, relationshipType: string, target: Reference, confidence: real,
    firstSeen: Option<int>, lastSeen: Option<int>, common: seq<string>, evidence: seq<nat>)

  datatype Candidate = Candidate(id: nat, target: Reference, candidateType: string, score: real, evidence: seq<nat>)

  datatype Contradiction = Contradiction(id: nat, claim: string, values: seq<string>, evidence: seq<nat>)

  datatype Correlated = Correlated(
    relationships: seq<Relationship>, candidates: seq<Candidate>, contradictions: seq<Contradiction>)

  /** The contract of a contradiction asks for two evidence identifiers. */
  datatype CorrelationError = TooLittleEvidence(claim: string)

  /** Stable identifiers: hashes of their arguments. */
  datatype Ids = Ids(
    relationship: (nat, string, nat, string) -> nat,
    candidate: (nat, nat, string) -> nat,
    contradiction: (nat, string, seq<string>) -> nat)

  datatype ExactRule = ExactRule(attribute: Attribute, relationshipType: string, name: string, confidence: real)

  const EXACT_RULES: seq<ExactRule> := [
    ExactRule(CveIds, "same_cve", "exact_cve@phase6-v1", 1.0),
    ExactRule(IndicatorKeys, "same_indicator", "normalized_indicator@phase6-v1", 0.98),
    ExactRule(CpeKeys, "same_cpe", "exact_cpe@phase6-v1", 0.97),
    ExactRule(ProductKeys, "same_product", "normalized_product@phase6-v1", 0.94),
    ExactRule(AttackIds, "same_attack_technique", "exact_attack_id@phase6-v1", 0.9),
    ExactRule(ContentHashes, "same_content", "content_hash@phase6-v1", 1.0),
    ExactRule(ProviderIdentifiers, "same_provider_identifier", "provider_stable_identifier@phase6-v1", 0.96),
    ExactRule(ValidatedInfrastructure, "validated_infrastructure_reuse", "validated_infrastructure@phase6-v1", 0.88)]

  const CANDIDATE_FIELDS: seq<(Attribute, string, real)> := [
    (Infrastructure, "infrastructure", 0.72), (MalwareNames, "malware", 0.7), (ToolNames, "tool", 0.68),
    (CampaignNames, "campaign", 0.68), (ActorAliases, "actor_aliases", 0.45), (Behaviors, "behaviors", 0.55),
    (Sectors, "sectors", 0.4), (Geographies, "geographies", 0.35)]

  const TEMPORAL_WINDOW: int := 180 * 86400

  // --- helpers ---

  function Keys(e: Entity, a: Attribute): seq<string> {
    if a in e.keys then e.keys[a] else []
  }

  predicate Meet(left: seq<string>, right: seq<string>) {
    exists x | x in left :: x in right
  }

  /** `_common`: the sorted intersection. */
  function Common(left: seq<string>, right: seq<string>): seq<string> {
    SortedUnique(StringLess, Filter((x: string) => x in right, left))
  }

  function CombinedEvidence(a: Entity, b: Entity): seq<nat> {
    SortedUnique(IdLess, a.evidence + b.evidence)
  }

  function Earliest(a: Option<int>, b: Option<int>): Option<int> {
    if a.None? then b else if b.None? || a.value <= b.value then a else b
  }

  function Last(a: Option<int>, b: Option<int>): Option<int> {
    if a.None? then b else if b.None? || a.value >= b.value then a else b
  }

  predicate OverlapOrNear(a: Entity, b: Entity) {
    && a.firstSeen.Some? && b.firstSeen.Some?
    && var aLast := if a.lastSeen.Some? then a.lastSeen.value else a.firstSeen.value;
       var bLast := if b.lastSeen.Some? then b.lastSeen.value else b.firstSeen.value;
       (if a.firstSeen.value >= b.firstSeen.value then a.firstSeen.value else b.firstSeen.value)
       <= (if aLast <= bLast then aLast else bLast) + TEMPORAL_WINDOW
  }

  lemma CommonFacts(left: seq<string>, right: seq<string>)
    ensures StrictlySorted(StringLess, Common(left, right))
    ensures forall x :: x in Common(left, right) <==> x in left && x in right
    ensures Common(left, right) != [] <==> Meet(left, right)
  {
    StringLessOrders();
    FilterMembers((x: string) => x in right, left);
    ListingFacts(StringLess, Filter((x: string) => x in right, left));
    MemberOrEmpty(Common(left, right));
  }

  // --- the history, keyed and sorted ---

  function IndexOf(es: seq<Entity>, r: Reference): (i: Option<nat>)
    ensures i.Some? ==> i.value < |es| && es[i.value].reference == r
    ensures i.None? ==> forall k | 0 <= k < |es| :: es[k].reference != r
  {
    if es == [] then None
    else if es[|es| - 1].reference == r then Some(|es| - 1)
    else IndexOf(es[..|es| - 1], r)
  }

  /** `historical_by_id`: insertion order of first occurrence, value of the last. */
  function ByReference(history: seq<Entity>): seq<Entity> {
    if history == [] then []
    else
      var before, e := ByReference(history[..|history| - 1]), history[|history| - 1];
      match IndexOf(before, e.reference)
      case Some(i) => before[i := e]
      case None => before + [e]
  }

  predicate Before(a: Entity, b: Entity) {
    || a.reference.entityType < b.reference.entityType
    || (a.reference.entityType == b.reference.entityType && a.reference.entityId < b.reference.entityId)
  }

  function Ordered(history: seq<Entity>): seq<Entity> {
    SortBy(Before, ByReference(history))
  }

  ghost predicate DistinctReferences(es: seq<Entity>) {
    forall i, j | 0 <= i < j < |es| :: es[i].reference != es[j].reference
  }

  lemma BeforeOrders()
    ensures StrictWeakOrder(Before)
  {
  }

  /** The last item given for a reference. */
  function LastFor(history: seq<Entity>, r: Reference): Option<Entity> {
    if history == [] then None
    else if history[|history| - 1].reference == r then Some(history[|history| - 1])
    else LastFor(history[..|history| - 1], r)
  }

  lemma {:induction false} ByReferenceFacts(history: seq<Entity>)
    ensures DistinctReferences(ByReference(history))
    ensures forall e :: e in ByReference(history) <==> LastFor(history, e.reference) == Some(e)
  {
    if history != [] {
      var front, last := history[..|history| - 1], history[|history| - 1];
      ByReferenceFacts(front);
      var before, after := ByReference(front), ByReference(history);
      hide ByReference, LastFor;
      match IndexOf(before, last.reference)
      case Some(i) => ReplaceAt(before, i, last);
      case None =>
        assert forall k | 0 <= k < |before| :: before[k] in before;
    }
  }

  lemma ReplaceAt(before: seq<Entity>, i: nat, last: Entity)
    requires DistinctReferences(before) && i < |before| && before[i].reference == last.reference
    ensures DistinctReferences(before[i := last])
    ensures forall e :: e in before[i := last] <==> e == last || (e in before && e.reference != last.reference)
  {
    var after := before[i := last];
    assert after[i] == last;
    forall e | e in before && e.reference != last.reference ensures e in after {
      var k :| 0 <= k < |before| && before[k] == e;
      assert after[k] == e;
    }
    forall e | e in after && e != last ensures e in before && e.reference != last.reference {
      var k :| 0 <= k < |after| && after[k] == e;
      assert before[k] in before;
    }
  }

  lemma {:induction false} ByReferenceOfDistinct(history: seq<Entity>)
    requires DistinctReferences(history)
    ensures ByReference(history) == history
  {
    if history != [] {
      var front := history[..|history| - 1];
      ByReferenceOfDistinct(front);
      assert history == front + [history[|history| - 1]];
      assert IndexOf(front, history[|history| - 1].reference).None?;
      hide IndexOf;
    }
  }

  // --- relationships ---

  function ExactOf(ids: Ids, subject: Entity, prior: Entity, rule: ExactRule): seq<Relationship> {
    var common := Common(Keys(subject, rule.attribute), Keys(prior, rule.attribute));
    if common == [] then []
    else [Relationship(
      ids.relationship(subject.reference.entityId, rule.relationshipType, prior.reference.entityId, rule.name),
      rule.name, rule.relationshipType, prior.reference, rule.confidence,
      Earliest(subject.firstSeen, prior.firstSeen), Last(subject.lastSeen, prior.lastSeen),
      common, CombinedEvidence(subject, prior))]
  }

  function ExactBy(ids: Ids, subject: Entity, prior: Entity, rules: seq<ExactRule>): seq<Relationship>
  {
    if rules == [] then []
    else ExactBy(ids, subject, prior, rules[..|rules| - 1]) + ExactOf(ids, subject, prior, rules[|rules| - 1])
  }

  function ExactRelationships(
      ids: Ids, subject: Entity, priors: seq<Entity>, rules: seq<ExactRule>): seq<Relationship>
  {
    if priors == [] then []
    else
      ExactRelationships(ids, subject, priors[..|priors| - 1], rules)
      + ExactBy(ids, subject, priors[|priors| - 1], rules)
  }

  predicate RelationshipBefore(a: Relationship, b: Relationship) {
    a.id < b.id || (a.id == b.id && StringLess(a.rule, b.rule))
  }

  lemma RelationshipOrders()
    ensures StrictWeakOrder(RelationshipBefore)
  {
    StringLessOrders();
  }

  // --- candidates ---

  function Min(a: real, b: real): real {
    if a <= b then a else b
  }

  function FieldScore(base: real, shared: nat): real
    requires shared > 0
  {
    Min(1.0, base + Min(0.15, 0.03 * (shared - 1) as real))
  }

  function FieldCandidates(ids: Ids, subject: Entity, prior: Entity, n: nat): seq<Candidate>
    requires n <= |CANDIDATE_FIELDS|
  {
    if n == 0 then []
    else
      var (attribute, name, base) := CANDIDATE_FIELDS[n - 1];
      var common := Common(Keys(subject, attribute), Keys(prior, attribute));
      FieldCandidates(ids, subject, prior, n - 1)
      + if common == [] then []
        else [Candidate(ids.candidate(subject.reference.entityId, prior.reference.entityId, name),
                        prior.reference, name, FieldScore(base, |common|), CombinedEvidence(subject, prior))]
  }

  predicate SimilarityBefore(a: Similarity, b: Similarity) {
    || a.candidate.entityId < b.candidate.entityId
    || (a.candidate.entityId == b.candidate.entityId && a.score < b.score)
  }

  function SemanticCandidates(ids: Ids, subject: Entity, prior: Entity, similarities: seq<Similarity>): seq<Candidate> {
    if similarities == [] then []
    else
      var last := similarities[|similarities| - 1];
      SemanticCandidates(ids, subject, prior, similarities[..|similarities| - 1])
      + if last.candidate != prior.reference then []
        else [Candidate(ids.candidate(subject.reference.entityId, prior.reference.entityId, "semantic"),
                        prior.reference, "semantic_similarity", last.score,
                        SortedUnique(IdLess, CombinedEvidence(subject, prior) + last.evidence))]
  }

  function TemporalCandidates(ids: Ids, subject: Entity, prior: Entity): seq<Candidate> {
    if !OverlapOrNear(subject, prior) then []
    else [Candidate(ids.candidate(subject.reference.entityId, prior.reference.entityId, "temporal"), prior.reference,
                    "temporal_relevance", 0.3, CombinedEvidence(subject, prior))]
  }

  function CandidatesFor(ids: Ids, subject: Entity, prior: Entity): seq<Candidate> {
    FieldCandidates(ids, subject, prior, |CANDIDATE_FIELDS|)
    + TemporalCandidates(ids, subject, prior)
    + SemanticCandidates(ids, subject, prior, SortBy(SimilarityBefore, subject.similarities))
  }

  function Candidates(ids: Ids, subject: Entity, priors: seq<Entity>): seq<Candidate> {
    if priors == [] then []
    else Candidates(ids, subject, priors[..|priors| - 1]) + CandidatesFor(ids, subject, priors[|priors| - 1])
  }

  predicate CandidateBefore(a: Candidate, b: Candidate) {
    || a.target.entityId < b.target.entityId
    || (a.target.entityId == b.target.entityId && StringLess(a.candidateType, b.candidateType))
    || (a.target.entityId == b.target.entityId && a.candidateType == b.candidateType && a.id < b.id)
  }

  // --- contradictions ---

  type Groups = map<string, map<string, set<nat>>>

  function Values(groups: Groups, claim: string): map<string, set<nat>> {
    if claim in groups then groups[claim] else map[]
  }

  function Evidence(groups: Groups, claim: string, value: string): set<nat> {
    if value in Values(groups, claim) then Values(groups, claim)[value] else {}
  }

  function Grouped(assertions: seq<Assertion>): Groups {
    if assertions == [] then map[]
    else
      var before, a := Grouped(assertions[..|assertions| - 1]), assertions[|assertions| - 1];
      before[a.claim :=
        Values(before, a.claim)[a.value := Evidence(before, a.claim, a.value) + set x | x in a.evidence]]
  }

  function AssertionsOf(es: seq<Entity>): seq<Assertion> {
    if es == [] then [] else AssertionsOf(es[..|es| - 1]) + es[|es| - 1].assertions
  }

  function ClaimsOf(assertions: seq<Assertion>): seq<string> {
    if assertions == [] then [] else ClaimsOf(assertions[..|assertions| - 1]) + [assertions[|assertions| - 1].claim]
  }

  /** Values and evidence asserted for one claim, in the order given. */
  function ValuesOf(assertions: seq<Assertion>, claim: string): seq<string> {
    if assertions == [] then []
    else
      var a := assertions[|assertions| - 1];
      ValuesOf(assertions[..|assertions| - 1], claim) + if a.claim == claim then [a.value] else []
  }

  function EvidenceOf(assertions: seq<Assertion>, claim: string): seq<nat> {
    if assertions == [] then []
    else
      var a := assertions[|assertions| - 1];
      EvidenceOf(assertions[..|assertions| - 1], claim) + if a.claim == claim then a.evidence else []
  }

  /** A claim is contradicted when two assertions give it different values. */
  ghost predicate Contradicted(assertions: seq<Assertion>, claim: string) {
    exists a, b | a in assertions && b in assertions :: a.claim == claim && b.claim == claim && a.value != b.value
  }

  function ContradictionFor(ids: Ids, subject: Entity, assertions: seq<Assertion>, claim: string): (c: Contradiction)
    ensures c.claim == claim
  {
    var values := SortedUnique(StringLess, ValuesOf(assertions, claim));
    Contradiction(ids.contradiction(subject.reference.entityId, claim, values), claim, values,
                  SortedUnique(IdLess, EvidenceOf(assertions, claim)))
  }

  /** The output loop over the sorted claims. */
  function Reported(ids: Ids, subject: Entity, assertions: seq<Assertion>, claims: seq<string>)
    : Result<seq<Contradiction>, CorrelationError>
  {
    if claims == [] then Ok([])
    else
      var claim := claims[|claims| - 1];
      match Reported(ids, subject, assertions, claims[..|claims| - 1])
      case Err(e) => Err(e)
      case Ok(out) =>
        var c := ContradictionFor(ids, subject, assertions, claim);
        if |c.values| < 2 then Ok(out)
        else if |c.evidence| < 2 then Err(TooLittleEvidence(claim))
        else Ok(out + [c])
  }

  function ContradictionsOf(
      ids: Ids, subject: Entity, history: seq<Entity>): Result<seq<Contradiction>, CorrelationError>
  {
    var assertions := AssertionsOf([subject] + history);
    Reported(ids, subject, assertions, SortedUnique(StringLess, ClaimsOf(assertions)))
  }

  // --- correlate ---

  function CorrelatedOrdered(ids: Ids, subject: Entity, priors: seq<Entity>): Result<Correlated, CorrelationError> {
    match ContradictionsOf(ids, subject, priors)
    case Err(e) => Err(e)
    case Ok(contradictions) =>
      Ok(Correlated(
        SortBy(RelationshipBefore, ExactRelationships(ids, subject, priors, EXACT_RULES)),
        SortBy(CandidateBefore, Candidates(ids, subject, priors)),
        contradictions))
  }

  function CorrelationOf(ids: Ids, subject: Entity, history: seq<Entity>): Result<Correlated, CorrelationError> {
    CorrelatedOrdered(ids, subject, Ordered(history))
  }

  method Correlate(ids: Ids, subject: Entity, history: seq<Entity>)
    returns (result: Result<Correlated, CorrelationError>)
    ensures result == CorrelationOf(ids, subject, history)
  {
    hide CandidatesFor, ExactBy, ContradictionsOf, Insert;
    var byId: seq<Entity> := [];
    for i := 0 to |history|
      invariant byId == ByReference(history[..i])
    {
      assert history[..i + 1][..i] == history[..i];
      var at := IndexOf(byId, history[i].reference);
      byId := if at.Some? then byId[at.value := history[i]] else byId + [history[i]];
    }
    assert history[..|history|] == history;
    var priors := SortBy(Before, byId);
    var relationships: seq<Relationship>, candidates: seq<Candidate> := [], [];
    for i := 0 to |priors|
      invariant relationships == ExactRelationships(ids, subject, priors[..i], EXACT_RULES)
      invariant candidates == Candidates(ids, subject, priors[..i])
    {
      assert priors[..i + 1][..i] == priors[..i];
      var exact := ExactLoop(ids, subject, priors[i], EXACT_RULES);
      relationships := relationships + exact;
      candidates := candidates + CandidatesFor(ids, subject, priors[i]);
    }
    assert priors[..|priors|] == priors;
    var contradictions := ContradictionsLoop(ids, subject, priors);
    match contradictions {
      case Err(e) => result := Err(e);
      case Ok(found) =>
        result := Ok(Correlated(SortBy(RelationshipBefore, relationships), SortBy(CandidateBefore, candidates), found));
    }
  }

  method ExactLoop(ids: Ids, subject: Entity, prior: Entity, rules: seq<ExactRule>)
    returns (relationships: seq<Relationship>)
    ensures relationships == ExactBy(ids, subject, prior, rules)
  {
    relationships := [];
    for i := 0 to |rules|
      invariant relationships == ExactBy(ids, subject, prior, rules[..i])
    {
      var rule := rules[i];
      assert rules[..i + 1][..i] == rules[..i];
      var common := Common(Keys(subject, rule.attribute), Keys(prior, rule.attribute));
      if common == [] { continue; }
      relationships := relationships + [Relationship(
        ids.relationship(subject.reference.entityId, rule.relationshipType, prior.reference.entityId, rule.name),
        rule.name, rule.relationshipType, prior.reference, rule.confidence,
        Earliest(subject.firstSeen, prior.firstSeen), Last(subject.lastSeen, prior.lastSeen),
        common, CombinedEvidence(subject, prior))];
    }
    assert rules[..|rules|] == rules;
  }

  /** The first loop: groups assertions by claim and value. */
  method GroupLoop(assertions: seq<Assertion>) returns (groups: Groups)
    ensures groups == Grouped(assertions)
  {
    groups := map[];
    for i := 0 to |assertions|
      invariant groups == Grouped(assertions[..i])
    {
      assert assertions[..i + 1][..i] == assertions[..i];
      var a := assertions[i];
      var evidence := Evidence(groups, a.claim, a.value) + set x | x in a.evidence;
      groups := groups[a.claim := Values(groups, a.claim)[a.value := evidence]];
    }
    assert assertions[..|assertions|] == assertions;
  }

  /** The second loop: reports the claims with two values, in order. */
  method ContradictionsLoop(ids: Ids, subject: Entity, priors: seq<Entity>)
      returns (result: Result<seq<Contradiction>, CorrelationError>)
    ensures result == ContradictionsOf(ids, subject, priors)
  {
    hide Grouped, Values, ValuesOf, EvidenceOf, ClaimsOf, AssertionsOf, SortedUnique, StringLess;
    var assertions := AssertionsOf([subject] + priors);
    var groups := GroupLoop(assertions);
    var claims := SortedUnique(StringLess, ClaimsOf(assertions));
    var output: seq<Contradiction> := [];
    for i := 0 to |claims|
      invariant Reported(ids, subject, assertions, claims[..i]) == Ok(output)
    {
      assert claims[..i + 1][..i] == claims[..i];
      GroupSizes(assertions, claims[i]);
      if |Values(groups, claims[i])| < 2 { continue; }
      var contradiction := ContradictionFor(ids, subject, assertions, claims[i]);
      if |contradiction.evidence| < 2 {
        ErrorSticks(ids, subject, assertions, claims, i + 1);
        return Err(TooLittleEvidence(claims[i]));
      }
      output := output + [contradiction];
    }
    assert claims[..|claims|] == claims;
    result := Ok(output);
  }

  lemma {:induction false} ErrorSticks(
      ids: Ids, subject: Entity, assertions: seq<Assertion>, claims: seq<string>, n: nat)
    requires n <= |claims| && Reported(ids, subject, assertions, claims[..n]).Err?
    ensures Reported(ids, subject, assertions, claims) == Reported(ids, subject, assertions, claims[..n])
    decreases |claims|
  {
    if n < |claims| {
      assert claims[..|claims| - 1][..n] == claims[..n];
      ErrorSticks(ids, subject, assertions, claims[..|claims| - 1], n);
    } else {
      assert claims[..n] == claims;
    }
  }

  // --- the grouping is what was asserted ---

  ghost predicate SomeValueHas(values: map<string, set<nat>>, x: nat) {
    exists v | v in values :: x in values[v]
  }

  /** The grouped values of one claim are those asserted, with the evidence asserted for them. */
  ghost predicate GroupAgrees(values: map<string, set<nat>>, asserted: seq<string>, evidence: seq<nat>) {
    && (forall v :: v in values <==> v in asserted)
    && (forall x :: x in evidence <==> SomeValueHas(values, x))
  }

  lemma GroupGrows(values: map<string, set<nat>>, asserted: seq<string>, evidence: seq<nat>, a: Assertion)
    requires GroupAgrees(values, asserted, evidence)
    ensures GroupAgrees(
              values[a.value := (if a.value in values then values[a.value] else {}) + set x | x in a.evidence],
              asserted + [a.value], evidence + a.evidence)
  {
    var more := set x | x in a.evidence;
    var after := values[a.value := (if a.value in values then values[a.value] else {}) + more];
    EvidenceAdded(values, a.value, more);
    hide SomeValueHas;
    forall v ensures v in after <==> v in asserted + [a.value] {
      assert v in asserted + [a.value] <==> v in asserted || v == a.value;
    }
    forall x ensures x in evidence + a.evidence <==> SomeValueHas(after, x) {
      assert x in evidence + a.evidence <==> x in evidence || x in more;
    }
  }

  lemma {:induction false} GroupedFacts(assertions: seq<Assertion>, claim: string)
    ensures GroupAgrees(Values(Grouped(assertions), claim), ValuesOf(assertions, claim), EvidenceOf(assertions, claim))
  {
    if assertions != [] {
      hide GroupAgrees;
      var front, a := assertions[..|assertions| - 1], assertions[|assertions| - 1];
      GroupedFacts(front, claim);
      if a.claim == claim {
        GroupGrows(Values(Grouped(front), claim), ValuesOf(front, claim), EvidenceOf(front, claim), a);
      } else {
        assert Values(Grouped(assertions), claim) == Values(Grouped(front), claim);
        assert ValuesOf(assertions, claim) == ValuesOf(front, claim);
        assert EvidenceOf(assertions, claim) == EvidenceOf(front, claim);
      }
    }
  }

  lemma EvidenceAdded(before: map<string, set<nat>>, value: string, more: set<nat>)
    ensures forall x ::
      SomeValueHas(before[value := (if value in before then before[value] else {}) + more], x)
      <==> SomeValueHas(before, x) || x in more
  {
    var after := before[value := (if value in before then before[value] else {}) + more];
    forall x ensures SomeValueHas(after, x) <==> SomeValueHas(before, x) || x in more {
      if SomeValueHas(before, x) {
        var v :| v in before && x in before[v];
        assert x in after[v];
      } else if x in more {
        assert x in after[value];
      }
    }
  }

  lemma GroupSizes(assertions: seq<Assertion>, claim: string)
    ensures |Values(Grouped(assertions), claim)| == |SortedUnique(StringLess, ValuesOf(assertions, claim))|
  {
    GroupedFacts(assertions, claim);
    var values, listing := Values(Grouped(assertions), claim), SortedUnique(StringLess, ValuesOf(assertions, claim));
    StringLessOrders();
    ListingFacts(StringLess, ValuesOf(assertions, claim));
    assert values.Keys == set v | v in listing;
    StrictSize(StringLess, listing);
  }

  // --- order independence ---

  lemma OrderedFacts(history: seq<Entity>)
    ensures StrictlySorted(Before, Ordered(history))
    ensures forall e :: e in Ordered(history) <==> LastFor(history, e.reference) == Some(e)
  {
    var kept, ordered := ByReference(history), Ordered(history);
    BeforeOrders();
    ByReferenceFacts(history);
    SortFacts(Before, kept);
    assert Separated(Before, kept);
    SeparatedPermutes(Before, kept, ordered);
    forall e ensures e in ordered <==> e in kept {
      assert e in multiset(ordered) <==> e in multiset(kept);
    }
  }

  /** The result depends only on the last item given for each reference. */
  lemma CorrelationDependsOnLastItems(ids: Ids, subject: Entity, h: seq<Entity>, h': seq<Entity>)
    requires forall r :: LastFor(h, r) == LastFor(h', r)
    ensures CorrelationOf(ids, subject, h) == CorrelationOf(ids, subject, h')
  {
    BeforeOrders();
    OrderedFacts(h);
    OrderedFacts(h');
    StrictlySortedUnique(Before, Ordered(h), Ordered(h'));
  }

  /** Any permutation of a history with distinct references gives the same relationships,
      candidates and contradictions, in the same order. */
  lemma CorrelationOrderIndependent(ids: Ids, subject: Entity, h: seq<Entity>, h': seq<Entity>)
    requires DistinctReferences(h) && multiset(h) == multiset(h')
    ensures CorrelationOf(ids, subject, h) == CorrelationOf(ids, subject, h')
  {
    BeforeOrders();
    assert Separated(Before, h);
    SeparatedPermutes(Before, h, h');
    assert DistinctReferences(h');
    ByReferenceOfDistinct(h);
    ByReferenceOfDistinct(h');
    PermutationInvariant(Before, h, h');
  }

  /** A history with repeated references counts as the last item of each. */
  lemma CorrelationUsesLastDuplicate(ids: Ids, subject: Entity, history: seq<Entity>)
    ensures DistinctReferences(ByReference(history))
    ensures forall e :: e in ByReference(history) <==> LastFor(history, e.reference) == Some(e)
    ensures CorrelationOf(ids, subject, history) == CorrelationOf(ids, subject, ByReference(history))
  {
    ByReferenceFacts(history);
    ByReferenceOfDistinct(ByReference(history));
  }

  // --- relationships are exactly the rules that match ---

  predicate HasKey(e: Entity, a: Attribute, x: string) {
    a in e.keys && x in e.keys[a]
  }

  /** The keys that both have, each once, in order. */
  ghost predicate SharedKeys(a: Entity, b: Entity, attribute: Attribute, common: seq<string>) {
    && StrictlySorted(StringLess, common)
    && forall x :: x in common <==> HasKey(a, attribute, x) && HasKey(b, attribute, x)
  }

  /** The evidence of both and of `more`, each once, in order. */
  ghost predicate EvidenceUnion(a: Entity, b: Entity, more: seq<nat>, evidence: seq<nat>) {
    && StrictlySorted(IdLess, evidence)
    && forall x :: x in evidence <==> x in a.evidence || x in b.evidence || x in more
  }

  ghost predicate IsEarlier(a: Option<int>, b: Option<int>, m: Option<int>) {
    && (m.None? <==> a.None? && b.None?) && (m.Some? ==> m == a || m == b)
    && (a.Some? ==> m.Some? && m.value <= a.value) && (b.Some? ==> m.Some? && m.value <= b.value)
  }

  ghost predicate IsLater(a: Option<int>, b: Option<int>, m: Option<int>) {
    && (m.None? <==> a.None? && b.None?) && (m.Some? ==> m == a || m == b)
    && (a.Some? ==> m.Some? && m.value >= a.value) && (b.Some? ==> m.Some? && m.value >= b.value)
  }

  ghost predicate Matches(subject: Entity, prior: Entity, rule: ExactRule) {
    exists x :: HasKey(subject, rule.attribute, x) && HasKey(prior, rule.attribute, x)
  }

  /** `r` says of subject and prior what a matching rule says: type, confidence, the earlier of the
      first times, the later of the last, the shared keys, the evidence of both. */
  ghost predicate Emitted(ids: Ids, subject: Entity, prior: Entity, rule: ExactRule, r: Relationship) {
    && Matches(subject, prior, rule)
    && r.id == ids.relationship(
         subject.reference.entityId, rule.relationshipType, prior.reference.entityId, rule.name)
    && r.rule == rule.name && r.relationshipType == rule.relationshipType && r.confidence == rule.confidence
    && r.target == prior.reference
    && IsEarlier(subject.firstSeen, prior.firstSeen, r.firstSeen)
    && IsLater(subject.lastSeen, prior.lastSeen, r.lastSeen)
    && SharedKeys(subject, prior, rule.attribute, r.common) && EvidenceUnion(subject, prior, [], r.evidence)
  }

  lemma CommonShares(a: Entity, b: Entity, attribute: Attribute, common: seq<string>)
    ensures SharedKeys(a, b, attribute, common) <==> common == Common(Keys(a, attribute), Keys(b, attribute))
    ensures var shared := Common(Keys(a, attribute), Keys(b, attribute));
      shared != [] <==> exists x :: HasKey(a, attribute, x) && HasKey(b, attribute, x)
  {
    var shared := Common(Keys(a, attribute), Keys(b, attribute));
    CommonFacts(Keys(a, attribute), Keys(b, attribute));
    StringLessOrders();
    assert forall x :: x in shared <==> HasKey(a, attribute, x) && HasKey(b, attribute, x);
    hide Common, StringLess, Keys, HasKey;
    MemberOrEmpty(shared);
    if SharedKeys(a, b, attribute, common) {
      StrictlySortedUnique(StringLess, common, shared);
    }
  }

  lemma UnionIs(a: Entity, b: Entity, more: seq<nat>, evidence: seq<nat>)
    ensures EvidenceUnion(a, b, more, evidence)
       <==> evidence == SortedUnique(IdLess, CombinedEvidence(a, b) + more)
    ensures EvidenceUnion(a, b, [], evidence) <==> evidence == CombinedEvidence(a, b)
  {
    var both, all := CombinedEvidence(a, b), SortedUnique(IdLess, CombinedEvidence(a, b) + more);
    IdLessOrders();
    ListingFacts(IdLess, a.evidence + b.evidence);
    ListingFacts(IdLess, both + more);
    assert EvidenceUnion(a, b, more, all) && EvidenceUnion(a, b, [], both);
    hide SortedUnique, CombinedEvidence;
    if EvidenceUnion(a, b, more, evidence) {
      StrictlySortedUnique(IdLess, evidence, all);
    }
    if EvidenceUnion(a, b, [], evidence) {
      StrictlySortedUnique(IdLess, evidence, both);
    }
  }

  lemma BoundsAre(a: Option<int>, b: Option<int>, m: Option<int>)
    ensures IsEarlier(a, b, m) <==> m == Earliest(a, b)
    ensures IsLater(a, b, m) <==> m == Last(a, b)
  {
  }

  ghost predicate DistinctPairs(rs: seq<Relationship>) {
    forall i, j | 0 <= i < j < |rs| :: (rs[i].target, rs[i].rule) != (rs[j].target, rs[j].rule)
  }

  ghost predicate DistinctNames(rules: seq<ExactRule>) {
    forall i, j | 0 <= i < j < |rules| :: rules[i].name != rules[j].name
  }

  lemma RuleNamesDistinct()
    ensures DistinctNames(EXACT_RULES)
  {
    var names := [
      "exact_cve@phase6-v1", "normalized_indicator@phase6-v1", "exact_cpe@phase6-v1", "normalized_product@phase6-v1",
      "exact_attack_id@phase6-v1", "content_hash@phase6-v1", "provider_stable_identifier@phase6-v1",
      "validated_infrastructure@phase6-v1"];
    assert |names[0]| == 19 && |names[1]| == 30 && |names[2]| == 19 && |names[3]| == 28;
    assert |names[4]| == 25 && |names[5]| == 22 && |names[6]| == 36 && |names[7]| == 34;
    assert names[0][7] == 'v' && names[2][7] == 'p';
  }

  /** A rule adds its relationship exactly when it matches. */
  lemma ExactOfFacts(ids: Ids, subject: Entity, prior: Entity, rule: ExactRule)
    ensures var rs := ExactOf(ids, subject, prior, rule);
      && |rs| <= 1
      && (forall r :: r in rs <==> Emitted(ids, subject, prior, rule, r))
      && (forall r | r in rs :: r.rule == rule.name && r.target == prior.reference)
  {
    hide Common, Keys, CombinedEvidence, HasKey, SharedKeys, EvidenceUnion, IsEarlier, IsLater, Earliest, Last;
    var rs := ExactOf(ids, subject, prior, rule);
    forall r ensures r in rs <==> Emitted(ids, subject, prior, rule, r) {
      CommonShares(subject, prior, rule.attribute, r.common);
      UnionIs(subject, prior, [], r.evidence);
      BoundsAre(subject.firstSeen, prior.firstSeen, r.firstSeen);
      BoundsAre(subject.lastSeen, prior.lastSeen, r.lastSeen);
    }
  }

  ghost predicate EmittedBy(ids: Ids, subject: Entity, prior: Entity, rules: seq<ExactRule>, r: Relationship)
  {
    exists rule | rule in rules :: Emitted(ids, subject, prior, rule, r)
  }

  ghost predicate EmittedBySome(
      ids: Ids, subject: Entity, priors: seq<Entity>, rules: seq<ExactRule>, r: Relationship)
  {
    exists e | e in priors :: EmittedBy(ids, subject, e, rules, r)
  }

  /** Two lists whose members differ pairwise join into one whose members do. */
  lemma PairsJoin(a: seq<Relationship>, b: seq<Relationship>)
    requires DistinctPairs(a) && DistinctPairs(b)
    requires forall x, y | x in a && y in b :: (x.target, x.rule) != (y.target, y.rule)
    ensures DistinctPairs(a + b)
  {
    forall i, j | 0 <= i < j < |a + b|
      ensures ((a + b)[i].target, (a + b)[i].rule) != ((a + b)[j].target, (a + b)[j].rule)
    {
      if i < |a| <= j {
        assert a[i] in a && b[j - |a|] in b;
      }
    }
  }

  ghost predicate NamedBy(rules: seq<ExactRule>, r: Relationship)
  {
    exists rule | rule in rules :: r.rule == rule.name
  }

  lemma EmittedByLast(ids: Ids, subject: Entity, prior: Entity, front: seq<ExactRule>, rule: ExactRule, r: Relationship)
    ensures EmittedBy(ids, subject, prior, front + [rule], r)
       <==> EmittedBy(ids, subject, prior, front, r) || r in ExactOf(ids, subject, prior, rule)
  {
    ExactOfFacts(ids, subject, prior, rule);
    if EmittedBy(ids, subject, prior, front, r) {
      var x :| x in front && Emitted(ids, subject, prior, x, r);
      assert x in front + [rule];
    } else if r in ExactOf(ids, subject, prior, rule) {
      assert rule in front + [rule];
    }
  }

  /** Every relationship points at the prior and carries the name of one of the rules. */
  ghost predicate AllNamed(prior: Entity, rules: seq<ExactRule>, rs: seq<Relationship>) {
    forall r | r in rs :: r.target == prior.reference && NamedBy(rules, r)
  }

  lemma NamedStep(
      prior: Entity, front: seq<ExactRule>, rule: ExactRule, before: seq<Relationship>, added: seq<Relationship>)
    requires AllNamed(prior, front, before)
    requires forall r | r in added :: r.target == prior.reference && r.rule == rule.name
    ensures AllNamed(prior, front + [rule], before + added)
  {
    assert rule in front + [rule];
    forall r | r in before ensures NamedBy(front + [rule], r) {
      var named :| named in front && r.rule == named.name;
      assert named in front + [rule];
    }
  }

  lemma PairsStep(
      prior: Entity, front: seq<ExactRule>, rule: ExactRule, before: seq<Relationship>, added: seq<Relationship>)
    requires DistinctNames(front + [rule]) && AllNamed(prior, front, before) && DistinctPairs(before) && |added| <= 1
    requires forall r | r in added :: r.rule == rule.name
    ensures DistinctPairs(before + added)
  {
    forall x, y | x in before && y in added ensures (x.target, x.rule) != (y.target, y.rule) {
      var other :| other in front && x.rule == other.name;
      var k :| 0 <= k < |front| && front[k] == other;
      assert (front + [rule])[k].name != (front + [rule])[|front|].name;
    }
    PairsJoin(before, added);
  }

  lemma {:induction false} ExactByFacts(ids: Ids, subject: Entity, prior: Entity, rules: seq<ExactRule>)
    requires DistinctNames(rules)
    ensures DistinctPairs(ExactBy(ids, subject, prior, rules))
        && AllNamed(prior, rules, ExactBy(ids, subject, prior, rules))
    ensures forall r :: r in ExactBy(ids, subject, prior, rules) <==> EmittedBy(ids, subject, prior, rules, r)
  {
    if rules != [] {
      var front, rule := rules[..|rules| - 1], rules[|rules| - 1];
      assert rules == front + [rule];
      ExactByFacts(ids, subject, prior, front);
      ExactOfFacts(ids, subject, prior, rule);
      hide EmittedBy, Emitted, ExactOf, AllNamed, DistinctPairs;
      var before, added := ExactBy(ids, subject, prior, front), ExactOf(ids, subject, prior, rule);
      NamedStep(prior, front, rule, before, added);
      PairsStep(prior, front, rule, before, added);
      forall r ensures r in before + added <==> EmittedBy(ids, subject, prior, rules, r) {
        EmittedByLast(ids, subject, prior, front, rule, r);
      }
    }
  }

  lemma {:induction false} ExactRelationshipsFacts(
      ids: Ids, subject: Entity, priors: seq<Entity>, rules: seq<ExactRule>)
    requires DistinctReferences(priors) && DistinctNames(rules)
    ensures DistinctPairs(ExactRelationships(ids, subject, priors, rules))
    ensures forall r | r in ExactRelationships(ids, subject, priors, rules) ::
              exists e | e in priors :: r.target == e.reference
    ensures forall r ::
              r in ExactRelationships(ids, subject, priors, rules) <==> EmittedBySome(ids, subject, priors, rules, r)
  {
    if priors != [] {
      var front, prior := priors[..|priors| - 1], priors[|priors| - 1];
      ExactRelationshipsFacts(ids, subject, front, rules);
      ExactByFacts(ids, subject, prior, rules);
      var before, added := ExactRelationships(ids, subject, front, rules), ExactBy(ids, subject, prior, rules);
      assert priors == front + [prior];
      forall x, y | x in before && y in added ensures (x.target, x.rule) != (y.target, y.rule) {
        var e :| e in front && x.target == e.reference;
        var k :| 0 <= k < |front| && front[k] == e;
        assert priors[k].reference != priors[|front|].reference;
      }
      PairsJoin(before, added);
      forall r | r in before + added ensures exists e | e in priors :: r.target == e.reference {
        if r in before {
          var e :| e in front && r.target == e.reference;
          assert e in priors;
        } else {
          assert prior in priors;
        }
      }
    }
  }

  lemma PairsPermute(a: seq<Relationship>, b: seq<Relationship>)
    requires DistinctPairs(a) && multiset(a) == multiset(b)
    ensures DistinctPairs(b)
  {
    var less := (x: Relationship, y: Relationship) => (x.target, x.rule) != (y.target, y.rule);
    SeparatedPermutes(less, a, b);
  }

  /** `r` comes from the last item of some reference and a matching rule. */
  ghost predicate Due(ids: Ids, subject: Entity, history: seq<Entity>, r: Relationship) {
    exists e: Entity | LastFor(history, e.reference) == Some(e) :: EmittedBy(ids, subject, e, EXACT_RULES, r)
  }

  /** By identifier, then by rule. */
  ghost predicate RelationshipFollows(a: Relationship, b: Relationship) {
    a.id <= b.id && (a.id == b.id ==> a.rule == b.rule || StringLess(a.rule, b.rule))
  }

  lemma RelationshipOrderSpelled()
    ensures forall a, b :: !RelationshipBefore(b, a) ==> RelationshipFollows(a, b)
  {
    StringLessOrders();
    hide StringLess;
  }

  /** One relationship per (prior, rule) exactly when their key sets meet, and no other. */
  lemma RelationshipsExact(ids: Ids, subject: Entity, history: seq<Entity>)
    requires CorrelationOf(ids, subject, history).Ok?
    ensures var rs := CorrelationOf(ids, subject, history).value.relationships;
      && (forall i, j | 0 <= i < j < |rs| :: RelationshipFollows(rs[i], rs[j]))
      && DistinctPairs(rs) && forall r :: r in rs <==> Due(ids, subject, history, r)
  {
    RelationshipOrderSpelled();
    hide RelationshipFollows, RelationshipBefore;
    var priors := Ordered(history);
    OrderedFacts(history);
    SortedRelationships(ids, subject, priors);
    forall r ensures EmittedBySome(ids, subject, priors, EXACT_RULES, r) <==> Due(ids, subject, history, r) {
      if EmittedBySome(ids, subject, priors, EXACT_RULES, r) {
        var e :| e in priors && EmittedBy(ids, subject, e, EXACT_RULES, r);
        assert LastFor(history, e.reference) == Some(e);
      }
    }
  }

  lemma SortedRelationships(ids: Ids, subject: Entity, priors: seq<Entity>)
    requires StrictlySorted(Before, priors)
    ensures var rs := SortBy(RelationshipBefore, ExactRelationships(ids, subject, priors, EXACT_RULES));
      && Sorted(RelationshipBefore, rs) && DistinctPairs(rs)
      && forall r :: r in rs <==> EmittedBySome(ids, subject, priors, EXACT_RULES, r)
  {
    RuleNamesDistinct();
    var rules := EXACT_RULES;
    assert DistinctReferences(priors);
    ExactRelationshipsFacts(ids, subject, priors, rules);
    var unsorted := ExactRelationships(ids, subject, priors, rules);
    var rs := SortBy(RelationshipBefore, unsorted);
    RelationshipOrders();
    SortFacts(RelationshipBefore, unsorted);
    PairsPermute(unsorted, rs);
    forall r ensures r in rs <==> r in unsorted {
      assert r in multiset(rs) <==> r in multiset(unsorted);
    }
  }

  // --- candidates are exactly the three kinds of hints ---

  /** The score of a field with so many shared keys: three hundredths more for each further key, up to
      the sixth. */
  function ScoreFor(base: real, shared: nat): real {
    base + 0.03 * (if shared == 0 then 0 else if shared < 6 then shared - 1 else 5) as real
  }

  ghost predicate HintOn(
      ids: Ids, subject: Entity, prior: Entity, hash: string, kind: string, score: real, more: seq<nat>, c: Candidate)
  {
    && c.id == ids.candidate(subject.reference.entityId, prior.reference.entityId, hash)
    && c.target == prior.reference && c.candidateType == kind && c.score == score
    && EvidenceUnion(subject, prior, more, c.evidence)
  }

  /** A field of both shares a key. */
  ghost predicate FieldHint(ids: Ids, subject: Entity, prior: Entity, n: nat, c: Candidate)
    requires n < |CANDIDATE_FIELDS|
  {
    var (attribute, name, base) := CANDIDATE_FIELDS[n];
    exists common | SharedKeys(subject, prior, attribute, common) ::
      common != [] && HintOn(ids, subject, prior, name, name, ScoreFor(base, |common|), [], c)
  }

  /** Both were seen, and neither interval starts more than 180 days after the other's end. */
  ghost predicate Near(a: Entity, b: Entity) {
    && a.firstSeen.Some? && b.firstSeen.Some?
    && var aEnd := (if a.lastSeen.Some? then a.lastSeen else a.firstSeen).value + 180 * 86400;
       var bEnd := (if b.lastSeen.Some? then b.lastSeen else b.firstSeen).value + 180 * 86400;
       && a.firstSeen.value <= bEnd && b.firstSeen.value <= aEnd
       && a.firstSeen.value <= aEnd && b.firstSeen.value <= bEnd
  }

  ghost predicate TemporalHint(ids: Ids, subject: Entity, prior: Entity, c: Candidate) {
    Near(subject, prior) && HintOn(ids, subject, prior, "temporal", "temporal_relevance", 0.3, [], c)
  }

  /** The subject's own similarities name the prior. */
  ghost predicate SemanticHint(ids: Ids, subject: Entity, prior: Entity, s: Similarity, c: Candidate) {
    s.candidate == prior.reference
    && HintOn(ids, subject, prior, "semantic", "semantic_similarity", s.score, s.evidence, c)
  }

  ghost predicate Hinted(ids: Ids, subject: Entity, prior: Entity, c: Candidate) {
    || FieldHinted(ids, subject, prior, |CANDIDATE_FIELDS|, c)
    || TemporalHint(ids, subject, prior, c)
    || (exists s | s in subject.similarities :: SemanticHint(ids, subject, prior, s, c))
  }

  lemma ScoreIs(n: nat, shared: nat)
    requires n < |CANDIDATE_FIELDS| && shared > 0
    ensures FieldScore(CANDIDATE_FIELDS[n].2, shared) == ScoreFor(CANDIDATE_FIELDS[n].2, shared)
  {
    var base := CANDIDATE_FIELDS[n].2;
    assert base <= 0.72;
    assert shared >= 6 ==> 0.03 * (shared - 1) as real >= 0.15;
    assert shared < 6 ==> 0.03 * (shared - 1) as real <= 0.15;
  }

  lemma FieldHintIs(ids: Ids, subject: Entity, prior: Entity, n: nat, c: Candidate)
    requires n < |CANDIDATE_FIELDS|
    ensures var (attribute, name, base) := CANDIDATE_FIELDS[n];
      var common := Common(Keys(subject, attribute), Keys(prior, attribute));
      FieldHint(ids, subject, prior, n, c)
      <==> common != []
           && c == Candidate(ids.candidate(subject.reference.entityId, prior.reference.entityId, name),
                             prior.reference, name, FieldScore(base, |common|), CombinedEvidence(subject, prior))
  {
    var (attribute, name, base) := CANDIDATE_FIELDS[n];
    var common := Common(Keys(subject, attribute), Keys(prior, attribute));
    UnionIs(subject, prior, [], c.evidence);
    CommonShares(subject, prior, attribute, common);
    if common != [] { ScoreIs(n, |common|); }
    forall other | SharedKeys(subject, prior, attribute, other) ensures other == common {
      CommonShares(subject, prior, attribute, other);
    }
    hide Common, Keys, CombinedEvidence, SharedKeys, EvidenceUnion, ScoreFor, FieldScore;
  }

  lemma FieldCandidatesNext(ids: Ids, subject: Entity, prior: Entity, n: nat, c: Candidate)
    requires n < |CANDIDATE_FIELDS|
    ensures c in FieldCandidates(ids, subject, prior, n + 1)
       <==> c in FieldCandidates(ids, subject, prior, n) || FieldHint(ids, subject, prior, n, c)
  {
    FieldHintIs(ids, subject, prior, n, c);
    hide FieldHint, Common, CombinedEvidence, FieldScore, Keys;
  }

  /** One of the first `n` fields shares a key. */
  ghost predicate FieldHinted(ids: Ids, subject: Entity, prior: Entity, n: nat, c: Candidate)
    requires n <= |CANDIDATE_FIELDS|
  {
    exists k: nat | k < n :: FieldHint(ids, subject, prior, k, c)
  }

  lemma FieldHintedNext(ids: Ids, subject: Entity, prior: Entity, n: nat, c: Candidate)
    requires n < |CANDIDATE_FIELDS|
    ensures FieldHinted(ids, subject, prior, n + 1, c)
       <==> FieldHinted(ids, subject, prior, n, c) || FieldHint(ids, subject, prior, n, c)
  {
    hide FieldHint;
  }

  lemma {:induction false} FieldCandidatesExact(ids: Ids, subject: Entity, prior: Entity, n: nat, c: Candidate)
    requires n <= |CANDIDATE_FIELDS|
    ensures c in FieldCandidates(ids, subject, prior, n) <==> FieldHinted(ids, subject, prior, n, c)
  {
    hide *;
    if n == 0 {
      NoFieldHint(ids, subject, prior, c);
    } else {
      FieldCandidatesExact(ids, subject, prior, n - 1, c);
      FieldCandidatesNext(ids, subject, prior, n - 1, c);
      FieldHintedNext(ids, subject, prior, n - 1, c);
    }
  }

  lemma NoFieldHint(ids: Ids, subject: Entity, prior: Entity, c: Candidate)
    ensures c !in FieldCandidates(ids, subject, prior, 0) && !FieldHinted(ids, subject, prior, 0, c)
  {
    hide FieldHint;
  }

  lemma SemanticCandidatesNext(
      ids: Ids, subject: Entity, prior: Entity, front: seq<Similarity>, last: Similarity, c: Candidate)
    ensures c in SemanticCandidates(ids, subject, prior, front + [last])
       <==> c in SemanticCandidates(ids, subject, prior, front) || SemanticHint(ids, subject, prior, last, c)
  {
    assert (front + [last])[..|front|] == front;
    UnionIs(subject, prior, last.evidence, c.evidence);
    hide CombinedEvidence, EvidenceUnion, SortedUnique;
  }

  lemma {:induction false} SemanticCandidatesExact(
      ids: Ids, subject: Entity, prior: Entity, similarities: seq<Similarity>, c: Candidate)
    ensures c in SemanticCandidates(ids, subject, prior, similarities)
       <==> exists s | s in similarities :: SemanticHint(ids, subject, prior, s, c)
  {
    if similarities != [] {
      var front, last := similarities[..|similarities| - 1], similarities[|similarities| - 1];
      SemanticCandidatesExact(ids, subject, prior, front, c);
      assert similarities == front + [last];
      SemanticCandidatesNext(ids, subject, prior, front, last, c);
      hide SemanticCandidates, SemanticHint;
      assert forall s :: s in similarities <==> s in front || s == last;
    }
  }

  lemma TemporalCandidatesExact(ids: Ids, subject: Entity, prior: Entity, c: Candidate)
    ensures c in TemporalCandidates(ids, subject, prior) <==> TemporalHint(ids, subject, prior, c)
  {
    assert Near(subject, prior) <==> OverlapOrNear(subject, prior);
    UnionIs(subject, prior, [], c.evidence);
    hide Near, OverlapOrNear, EvidenceUnion, CombinedEvidence;
  }

  lemma CandidatesForExact(ids: Ids, subject: Entity, prior: Entity, c: Candidate)
    ensures c in CandidatesFor(ids, subject, prior) <==> Hinted(ids, subject, prior, c)
  {
    var similarities := SortBy(SimilarityBefore, subject.similarities);
    FieldCandidatesExact(ids, subject, prior, |CANDIDATE_FIELDS|, c);
    TemporalCandidatesExact(ids, subject, prior, c);
    SemanticCandidatesExact(ids, subject, prior, similarities, c);
    SimilarityOrders();
    SortMembers(SimilarityBefore, subject.similarities);
    hide FieldCandidates, TemporalCandidates, SemanticCandidates, FieldHinted, TemporalHint, SemanticHint;
  }

  lemma SimilarityOrders()
    ensures StrictWeakOrder(SimilarityBefore)
  {
  }

  lemma CandidateOrders()
    ensures StrictWeakOrder(CandidateBefore)
  {
    StringLessOrders();
    hide StringLess;
  }

  lemma {:induction false} CandidatesMembers(ids: Ids, subject: Entity, priors: seq<Entity>, c: Candidate)
    ensures c in Candidates(ids, subject, priors) <==> exists e | e in priors :: Hinted(ids, subject, e, c)
  {
    if priors != [] {
      var front, last := priors[..|priors| - 1], priors[|priors| - 1];
      CandidatesMembers(ids, subject, front, c);
      CandidatesForExact(ids, subject, last, c);
      assert forall e :: e in priors <==> e in front || e == last;
      hide CandidatesFor, Hinted;
    }
  }

  /** `c` comes from the last item of some reference in one of the three ways. */
  ghost predicate Suggested(ids: Ids, subject: Entity, history: seq<Entity>, c: Candidate) {
    exists e: Entity | LastFor(history, e.reference) == Some(e) :: Hinted(ids, subject, e, c)
  }

  lemma CandidatesSuggested(ids: Ids, subject: Entity, history: seq<Entity>, c: Candidate)
    ensures c in Candidates(ids, subject, Ordered(history)) <==> Suggested(ids, subject, history, c)
  {
    OrderedFacts(history);
    CandidatesMembers(ids, subject, Ordered(history), c);
    hide Candidates, Hinted, LastFor, Ordered;
  }

  // --- how many candidates there are ---

  /** How many of the first `n` fields share a key. */
  ghost function FieldWays(subject: Entity, prior: Entity, n: nat): nat
    requires n <= |CANDIDATE_FIELDS|
  {
    if n == 0 then 0
    else
      var attribute := CANDIDATE_FIELDS[n - 1].0;
      FieldWays(subject, prior, n - 1)
      + if exists x :: HasKey(subject, attribute, x) && HasKey(prior, attribute, x) then 1 else 0
  }

  predicate Names(r: Reference, s: Similarity) {
    s.candidate == r
  }

  /** In how many ways a prior is hinted at. */
  ghost function Ways(subject: Entity, prior: Entity): nat {
    FieldWays(subject, prior, |CANDIDATE_FIELDS|) + (if Near(subject, prior) then 1 else 0)
    + |Filter((s: Similarity) => Names(prior.reference, s), subject.similarities)|
  }

  ghost function AllWays(subject: Entity, priors: seq<Entity>): nat {
    if priors == [] then 0
    else AllWays(subject, priors[..|priors| - 1]) + Ways(subject, priors[|priors| - 1])
  }

  lemma {:induction false} FieldCount(ids: Ids, subject: Entity, prior: Entity, n: nat)
    requires n <= |CANDIDATE_FIELDS|
    ensures |FieldCandidates(ids, subject, prior, n)| == FieldWays(subject, prior, n)
  {
    if n == 0 { return; }
    var attribute := CANDIDATE_FIELDS[n - 1].0;
    FieldCount(ids, subject, prior, n - 1);
    CommonShares(subject, prior, attribute, Common(Keys(subject, attribute), Keys(prior, attribute)));
    hide Common, Keys, HasKey, FieldScore, CombinedEvidence, SharedKeys;
  }

  lemma {:induction false} SemanticCount(ids: Ids, subject: Entity, prior: Entity, similarities: seq<Similarity>)
    ensures |SemanticCandidates(ids, subject, prior, similarities)|
         == |Filter((s: Similarity) => Names(prior.reference, s), similarities)|
  {
    if similarities != [] {
      var front, last := similarities[..|similarities| - 1], similarities[|similarities| - 1];
      SemanticCount(ids, subject, prior, front);
      FilterSnoc((s: Similarity) => Names(prior.reference, s), front, last);
      assert similarities == front + [last];
      hide Filter, CombinedEvidence, SortedUnique;
    }
  }

  lemma CountFor(ids: Ids, subject: Entity, prior: Entity)
    ensures |CandidatesFor(ids, subject, prior)| == Ways(subject, prior)
  {
    var named := (s: Similarity) => Names(prior.reference, s);
    FieldCount(ids, subject, prior, |CANDIDATE_FIELDS|);
    SemanticCount(ids, subject, prior, SortBy(SimilarityBefore, subject.similarities));
    SortKeepsCount(SimilarityBefore, named, subject.similarities);
    assert Near(subject, prior) <==> OverlapOrNear(subject, prior);
    hide FieldCandidates, SemanticCandidates, FieldWays, Near, OverlapOrNear, Filter, SortBy;
  }

  lemma {:induction false} CountAll(ids: Ids, subject: Entity, priors: seq<Entity>)
    ensures |Candidates(ids, subject, priors)| == AllWays(subject, priors)
  {
    if priors != [] {
      CountAll(ids, subject, priors[..|priors| - 1]);
      CountFor(ids, subject, priors[|priors| - 1]);
      hide CandidatesFor, Ways;
    }
  }

  /** By target, then by type, then by identifier. */
  ghost predicate CandidateFollows(a: Candidate, b: Candidate) {
    && a.target.entityId <= b.target.entityId
    && (a.target.entityId == b.target.entityId ==>
          a.candidateType == b.candidateType || StringLess(a.candidateType, b.candidateType))
    && (a.target.entityId == b.target.entityId && a.candidateType == b.candidateType ==> a.id <= b.id)
  }

  lemma CandidateOrderSpelled()
    ensures forall a, b :: !CandidateBefore(b, a) ==> CandidateFollows(a, b)
  {
    StringLessOrders();
    hide StringLess;
  }

  lemma SortedCandidates(unsorted: seq<Candidate>)
    ensures var cs := SortBy(CandidateBefore, unsorted);
      && |cs| == |unsorted| && (forall c :: c in cs <==> c in unsorted)
      && forall i, j | 0 <= i < j < |cs| :: CandidateFollows(cs[i], cs[j])
  {
    CandidateOrders();
    CandidateOrderSpelled();
    hide CandidateBefore, CandidateFollows;
    SortMembers(CandidateBefore, unsorted);
    SortFacts(CandidateBefore, unsorted);
  }

  /** A candidate is listed exactly when it is suggested, once for every way, and in order. */
  lemma CandidatesExact(ids: Ids, subject: Entity, history: seq<Entity>)
    requires CorrelationOf(ids, subject, history).Ok?
    ensures var cs := CorrelationOf(ids, subject, history).value.candidates;
      && (forall i, j | 0 <= i < j < |cs| :: CandidateFollows(cs[i], cs[j]))
      && (forall c :: c in cs <==> Suggested(ids, subject, history, c))
      && |cs| == AllWays(subject, Ordered(history))
  {
    var unsorted := Candidates(ids, subject, Ordered(history));
    SortedCandidates(unsorted);
    CountAll(ids, subject, Ordered(history));
    hide Candidates, Suggested, Ordered, CandidateBefore, CandidateFollows, SortBy, AllWays;
    forall c ensures c in unsorted <==> Suggested(ids, subject, history, c) {
      CandidatesSuggested(ids, subject, history, c);
    }
  }

  // --- contradictions are exactly the contradicted claims ---

  lemma {:induction false} ValuesOfFacts(assertions: seq<Assertion>, claim: string)
    ensures forall v ::
              v in ValuesOf(assertions, claim) <==> exists a | a in assertions :: a.claim == claim && a.value == v
    ensures forall x ::
              x in EvidenceOf(assertions, claim) <==> exists a | a in assertions :: a.claim == claim && x in a.evidence
    ensures claim in ClaimsOf(assertions) <==> exists a | a in assertions :: a.claim == claim
  {
    if assertions != [] {
      ValuesOfFacts(assertions[..|assertions| - 1], claim);
      assert assertions == assertions[..|assertions| - 1] + [assertions[|assertions| - 1]];
    }
  }

  ghost predicate TwoEvidence(assertions: seq<Assertion>, claim: string) {
    exists x, y | x in EvidenceOf(assertions, claim) && y in EvidenceOf(assertions, claim) :: x != y
  }

  lemma TwoOrMore<T(!new)>(less: (T, T) -> bool, s: seq<T>)
    requires TotalOrder(less)
    ensures |SortedUnique(less, s)| >= 2 <==> exists x, y | x in s && y in s :: x != y
  {
    ListingFacts(less, s);
    var t := SortedUnique(less, s);
    if |t| >= 2 {
      assert t[0] in t && t[1] in t && less(t[0], t[1]);
      assert t[0] in s && t[1] in s && t[0] != t[1];
    } else {
      assert forall x | x in t :: x == t[0];
    }
  }

  lemma ContradictedWhen(ids: Ids, subject: Entity, assertions: seq<Assertion>, claim: string)
    ensures var c := ContradictionFor(ids, subject, assertions, claim);
      && (|c.values| >= 2 <==> Contradicted(assertions, claim))
      && (|c.evidence| >= 2 <==> TwoEvidence(assertions, claim))
      && StrictlySorted(StringLess, c.values) && StrictlySorted(IdLess, c.evidence)
      && (forall v :: v in c.values <==> v in ValuesOf(assertions, claim))
      && (forall x :: x in c.evidence <==> x in EvidenceOf(assertions, claim))
  {
    StringLessOrders();
    IdLessOrders();
    var values := ValuesOf(assertions, claim);
    ValuesOfFacts(assertions, claim);
    ListingFacts(StringLess, values);
    ListingFacts(IdLess, EvidenceOf(assertions, claim));
    TwoOrMore(StringLess, values);
    TwoOrMore(IdLess, EvidenceOf(assertions, claim));
    if Contradicted(assertions, claim) {
      var a, b :| a in assertions && b in assertions && a.claim == claim && b.claim == claim && a.value != b.value;
      assert a.value in values && b.value in values;
    }
  }

  /** Some claim is contradicted with fewer than two evidence identifiers. */
  ghost predicate Unsupported(assertions: seq<Assertion>, claims: seq<string>) {
    exists claim | claim in claims :: Contradicted(assertions, claim) && !TwoEvidence(assertions, claim)
  }

  lemma UnsupportedSnoc(assertions: seq<Assertion>, front: seq<string>, claim: string)
    ensures Unsupported(assertions, front + [claim])
       <==> Unsupported(assertions, front) || (Contradicted(assertions, claim) && !TwoEvidence(assertions, claim))
  {
    hide Contradicted, TwoEvidence;
    if x :| x in front && Contradicted(assertions, x) && !TwoEvidence(assertions, x) {
      assert x in front + [claim];
    }
    assert claim in front + [claim];
  }

  /** What the output loop has found in the first claims. */
  ghost predicate ReportOf(
    ids: Ids, subject: Entity, assertions: seq<Assertion>, claims: seq<string>,
    r: Result<seq<Contradiction>, CorrelationError>)
  {
    && (r.Err? <==> Unsupported(assertions, claims))
    && (r.Ok? ==> ListsExactly(ids, subject, assertions, claims, r.value))
  }

  ghost predicate ListsExactly(
    ids: Ids, subject: Entity, assertions: seq<Assertion>, claims: seq<string>, out: seq<Contradiction>)
  {
    && (forall i, j | 0 <= i < j < |out| :: StringLess(out[i].claim, out[j].claim))
    && (forall c :: c in out <==>
          && c.claim in claims && Contradicted(assertions, c.claim)
          && c == ContradictionFor(ids, subject, assertions, c.claim))
  }

  lemma ListsSnoc(
      ids: Ids, subject: Entity, assertions: seq<Assertion>, front: seq<string>, claim: string, out: seq<Contradiction>)
    requires StrictlySorted(StringLess, front + [claim]) && ListsExactly(ids, subject, assertions, front, out)
    ensures ListsExactly(ids, subject, assertions, front + [claim],
              if Contradicted(assertions, claim) then out + [ContradictionFor(ids, subject, assertions, claim)]
              else out)
  {
    hide Contradicted, ContradictionFor, StringLess;
    forall i | 0 <= i < |out| ensures StringLess(out[i].claim, claim) {
      assert out[i] in out;
      var k :| 0 <= k < |front| && front[k] == out[i].claim;
      assert StringLess((front + [claim])[k], (front + [claim])[|front|]);
    }
  }

  lemma {:induction false} ReportedFacts(ids: Ids, subject: Entity, assertions: seq<Assertion>, claims: seq<string>)
    requires StrictlySorted(StringLess, claims)
    ensures ReportOf(ids, subject, assertions, claims, Reported(ids, subject, assertions, claims))
  {
    if claims != [] {
      var front, claim := claims[..|claims| - 1], claims[|claims| - 1];
      assert claims == front + [claim];
      ReportedFacts(ids, subject, assertions, front);
      ContradictedWhen(ids, subject, assertions, claim);
      UnsupportedSnoc(assertions, front, claim);
      hide Unsupported, ListsExactly, Contradicted, TwoEvidence, ContradictionFor, StringLess, StrictlySorted;
      var before := Reported(ids, subject, assertions, front);
      if before.Ok? {
        ListsSnoc(ids, subject, assertions, front, claim, before.value);
      }
    }
  }

  /** The report of a list of assertions: it fails exactly when some contradicted claim has fewer
      than two evidence identifiers; otherwise it lists, in claim order, exactly the claims with
      two different values, each with its sorted values and the sorted union of its evidence. */
  ghost predicate ReportsExactly(
    ids: Ids, subject: Entity, assertions: seq<Assertion>, r: Result<seq<Contradiction>, CorrelationError>)
  {
    && (r.Err? <==> exists claim :: Contradicted(assertions, claim) && !TwoEvidence(assertions, claim))
    && (r.Ok? ==>
          && (forall claim :: Contradicted(assertions, claim)
               <==> ContradictionFor(ids, subject, assertions, claim) in r.value)
          && (forall c | c in r.value :: c == ContradictionFor(ids, subject, assertions, c.claim))
          && (forall i, j | 0 <= i < j < |r.value| :: StringLess(r.value[i].claim, r.value[j].claim)))
  }

  lemma ContradictedIsClaimed(assertions: seq<Assertion>, claim: string)
    requires Contradicted(assertions, claim)
    ensures claim in SortedUnique(StringLess, ClaimsOf(assertions))
  {
    StringLessOrders();
    ListingFacts(StringLess, ClaimsOf(assertions));
    ValuesOfFacts(assertions, claim);
  }

  lemma ReportExact(ids: Ids, subject: Entity, assertions: seq<Assertion>)
    ensures ReportsExactly(ids, subject, assertions,
              Reported(ids, subject, assertions, SortedUnique(StringLess, ClaimsOf(assertions))))
  {
    var claims := SortedUnique(StringLess, ClaimsOf(assertions));
    StringLessOrders();
    ListingFacts(StringLess, ClaimsOf(assertions));
    ReportedFacts(ids, subject, assertions, claims);
    forall claim | Contradicted(assertions, claim) ensures claim in claims {
      ContradictedIsClaimed(assertions, claim);
    }
  }

  /** The subject asserts it, or the last item of some reference does. */
  ghost predicate States(subject: Entity, history: seq<Entity>, a: Assertion) {
    a in subject.assertions || exists e: Entity | LastFor(history, e.reference) == Some(e) :: a in e.assertions
  }

  /** A claim is stated with two different values. */
  ghost predicate Disputed(subject: Entity, history: seq<Entity>, claim: string) {
    exists a, b | States(subject, history, a) && States(subject, history, b) ::
      a.claim == claim && b.claim == claim && a.value != b.value
  }

  /** What is stated of a claim names two pieces of evidence. */
  ghost predicate Supported(subject: Entity, history: seq<Entity>, claim: string) {
    exists a, b, x, y | States(subject, history, a) && States(subject, history, b) ::
      a.claim == claim && b.claim == claim && x in a.evidence && y in b.evidence && x != y
  }

  /** All values stated of the claim and all their evidence, each once and in order. */
  ghost predicate Describes(ids: Ids, subject: Entity, history: seq<Entity>, c: Contradiction) {
    && c.id == ids.contradiction(subject.reference.entityId, c.claim, c.values)
    && StrictlySorted(StringLess, c.values)
    && (forall i, j | 0 <= i < j < |c.evidence| :: c.evidence[i] < c.evidence[j])
    && (forall v :: v in c.values <==>
          exists a | States(subject, history, a) :: a.claim == c.claim && a.value == v)
    && (forall x :: x in c.evidence <==>
          exists a | States(subject, history, a) :: a.claim == c.claim && x in a.evidence)
  }

  lemma {:induction false} AssertionsOfMembers(es: seq<Entity>, a: Assertion)
    ensures a in AssertionsOf(es) <==> exists e | e in es :: a in e.assertions
  {
    if es != [] {
      AssertionsOfMembers(es[..|es| - 1], a);
      assert es == es[..|es| - 1] + [es[|es| - 1]];
    }
  }

  lemma StatedAre(subject: Entity, history: seq<Entity>)
    ensures forall a :: States(subject, history, a) <==> a in AssertionsOf([subject] + Ordered(history))
  {
    var priors := Ordered(history);
    OrderedFacts(history);
    hide Ordered, LastFor, AssertionsOf;
    forall a ensures States(subject, history, a) <==> a in AssertionsOf([subject] + priors) {
      AssertionsOfMembers([subject] + priors, a);
      assert forall e :: e in [subject] + priors <==> e == subject || e in priors;
    }
  }

  lemma DisputedIs(subject: Entity, history: seq<Entity>, assertions: seq<Assertion>, claim: string)
    requires forall a :: States(subject, history, a) <==> a in assertions
    ensures Disputed(subject, history, claim) <==> Contradicted(assertions, claim)
    ensures Supported(subject, history, claim) <==> TwoEvidence(assertions, claim)
  {
    ValuesOfFacts(assertions, claim);
    hide States, ValuesOf, EvidenceOf, ClaimsOf;
    if Supported(subject, history, claim) {
      var a, b, x, y :| States(subject, history, a) && States(subject, history, b)
        && a.claim == claim && b.claim == claim && x in a.evidence && y in b.evidence && x != y;
      assert x in EvidenceOf(assertions, claim) && y in EvidenceOf(assertions, claim);
    }
    if TwoEvidence(assertions, claim) {
      var x, y :| x in EvidenceOf(assertions, claim) && y in EvidenceOf(assertions, claim) && x != y;
      var a :| a in assertions && a.claim == claim && x in a.evidence;
      var b :| b in assertions && b.claim == claim && y in b.evidence;
      assert States(subject, history, a) && States(subject, history, b);
    }
  }

  lemma DescribedBy(
      ids: Ids, subject: Entity, history: seq<Entity>, assertions: seq<Assertion>, claim: string)
    requires forall a :: States(subject, history, a) <==> a in assertions
    ensures Describes(ids, subject, history, ContradictionFor(ids, subject, assertions, claim))
  {
    ContradictedWhen(ids, subject, assertions, claim);
    ValuesOfFacts(assertions, claim);
    var c := ContradictionFor(ids, subject, assertions, claim);
    assert c.id == ids.contradiction(subject.reference.entityId, c.claim, c.values);
    hide States, ValuesOf, EvidenceOf, ClaimsOf, ContradictionFor, StringLess, TwoEvidence, Contradicted;
  }

  /** Correlation fails exactly when some disputed claim has fewer than two pieces of evidence.
      Otherwise it lists, in claim order, exactly the disputed claims, each with all that is stated
      of it by the subject and by the last item of every reference. */
  lemma ContradictionsExact(ids: Ids, subject: Entity, history: seq<Entity>)
    ensures var r := CorrelationOf(ids, subject, history);
      && (r.Err? <==> exists claim :: Disputed(subject, history, claim) && !Supported(subject, history, claim))
      && (r.Ok? ==> var cs := r.value.contradictions;
            && (forall claim :: Disputed(subject, history, claim) <==> exists c | c in cs :: c.claim == claim)
            && (forall c | c in cs :: Describes(ids, subject, history, c))
            && (forall i, j | 0 <= i < j < |cs| :: StringLess(cs[i].claim, cs[j].claim)))
  {
    var assertions := AssertionsOf([subject] + Ordered(history));
    ReportExact(ids, subject, assertions);
    StatedAre(subject, history);
    var r := CorrelationOf(ids, subject, history);
    assert ReportsExactly(ids, subject, assertions,
      match r case Err(e) => Err(e) case Ok(c) => Ok(c.contradictions));
    hide CorrelationOf, States, Disputed, Supported, Describes, Contradicted, TwoEvidence, Ordered, AssertionsOf,
      StringLess, ContradictionFor;
    forall claim
      ensures Disputed(subject, history, claim) <==> Contradicted(assertions, claim)
      ensures Supported(subject, history, claim) <==> TwoEvidence(assertions, claim)
      ensures Describes(ids, subject, history, ContradictionFor(ids, subject, assertions, claim))
    {
      DisputedIs(subject, history, assertions, claim);
      DescribedBy(ids, subject, history, assertions, claim);
    }
    if r.Ok? {
      forall claim
        ensures Disputed(subject, history, claim) <==> exists c | c in r.value.contradictions :: c.claim == claim
      {
        if Contradicted(assertions, claim) {
          assert ContradictionFor(ids, subject, assertions, claim) in r.value.contradictions;
        }
      }
    }
  }

  /** A candidate's score stays a confidence: at least its base, never above one, rising with the shared keys. */
  lemma FieldScoreBounded(base: real, shared: nat, more: nat)
    requires 0.0 <= base <= 1.0 && 0 < shared <= more
    ensures base <= FieldScore(base, shared) <= FieldScore(base, more) <= 1.0
  {
    assert 0.03 * (shared - 1) as real <= 0.03 * (more - 1) as real;
  }
}
