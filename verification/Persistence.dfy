/** db/repositories.py: source configurations and their history, source freshness, versioned
    source documents and risk assessments, as steps over tables held by one object. */
module Persistence {
  import opened Wrappers
  import opened VersionChains

  // --- rows ---

  datatype Config = Config(sourceId: string, settings: string)

  datatype Source = Source(
      config: Config, version: nat, lastSuccess: Option<int>, lastFailure: Option<int>, failures: nat)

  datatype HistoryRow = HistoryRow(sourceId: string, version: nat, hash: string, config: Config)

  datatype Outcome = Completed | Failed | Other

  /** One source's result in a collection; `completedAt` may be missing. */
  datatype SourceResult = SourceResult(sourceId: string, outcome: Outcome, completedAt: Option<int>)

  datatype DocumentKey = DocumentKey(sourceId: string, identity: string)

  datatype Document = Document(id: nat, key: DocumentKey, contentHash: string, supersedes: Option<nat>)

  type DocumentRow = Row<DocumentKey, string>

  datatype Entity = Entity(entityType: string, entityId: nat)

  datatype Assessment = Assessment(scoreVersion: string, score: int)

  type RiskRow = Row<Entity, Assessment>

  datatype DbError = SourceMissing | IdentifierTaken | LinkBroken

  // --- source configurations ---

  datatype SourceTables = SourceTables(sources: map<string, Source>, history: seq<HistoryRow>)

  function FindHistory(history: seq<HistoryRow>, s: string, hash: string): (r: Option<HistoryRow>)
    ensures r.Some? ==> r.value in history && r.value.sourceId == s && r.value.hash == hash
    ensures r.None? ==> forall h | h in history :: h.sourceId != s || h.hash != hash
  {
    if history == [] then None
    else
      var last := history[|history| - 1];
      assert history == history[..|history| - 1] + [last];
      if last.sourceId == s && last.hash == hash then Some(last) else FindHistory(history[..|history| - 1], s, hash)
  }

  /** 0 when the source has no history. */
  function MaxVersion(history: seq<HistoryRow>, s: string): nat {
    if history == [] then 0
    else
      var last, front := history[|history| - 1], MaxVersion(history[..|history| - 1], s);
      if last.sourceId == s && last.version > front then last.version else front
  }

  function Max(a: nat, b: nat): nat {
    if a >= b then a else b
  }

  function ConfigurationVersion(t: SourceTables, c: Config, hash: string): nat {
    match FindHistory(t.history, c.sourceId, hash)
    case Some(row) => row.version
    case None =>
      Max(if c.sourceId in t.sources then t.sources[c.sourceId].version + 1 else 1,
          MaxVersion(t.history, c.sourceId) + 1)
  }

  /** `upsert_source`. */
  function Upserted(t: SourceTables, hashOf: Config -> string, c: Config): SourceTables {
    var s, hash := c.sourceId, hashOf(c);
    var version := ConfigurationVersion(t, c, hash);
    var source :=
      if s in t.sources then t.sources[s].(config := c, version := version) else Source(c, version, None, None, 0);
    SourceTables(
      t.sources[s := source],
      if FindHistory(t.history, s, hash).None? then t.history + [HistoryRow(s, version, hash, c)] else t.history)
  }

  /** `_update_source_freshness` on one row. */
  function Freshened(source: Source, r: SourceResult): Source {
    match r.completedAt
    case None => source
    case Some(at) =>
      match r.outcome
      case Completed => source.(lastSuccess := Some(at), failures := 0)
      case Failed => source.(lastFailure := Some(at), failures := source.failures + 1)
      case Other => source
  }

  // --- documents and assessments ---

  function FindDocument(table: seq<DocumentRow>, key: DocumentKey, contentHash: string): (r: Option<DocumentRow>)
    ensures r.Some? ==> r.value in table && r.value.group == key && r.value.payload == contentHash
    ensures r.None? ==> forall d | d in table :: d.group != key || d.payload != contentHash
  {
    if table == [] then None
    else
      var last := table[|table| - 1];
      assert table == table[..|table| - 1] + [last];
      if last.group == key && last.payload == contentHash then Some(last)
      else FindDocument(table[..|table| - 1], key, contentHash)
  }

  /** `persist_source_document`: the table and the row handed back.  A used identifier violates the
      primary key, a link to no row the foreign key on the superseded document; a row may name
      itself.  The transaction then leaves the table as it was. */
  function DocumentPersisted(table: seq<DocumentRow>, d: Document): (seq<DocumentRow>, Result<DocumentRow, DbError>) {
    match FindDocument(table, d.key, d.contentHash)
    case Some(row) => (table, Ok(row))
    case None =>
      if IdUsed(table, d.id) then (table, Err(IdentifierTaken))
      else
        var row := NextRow(table, d.id, d.key, d.supersedes, d.contentHash);
        if !LinkResolves(table, row) then (table, Err(LinkBroken)) else (table + [row], Ok(row))
  }

  /** The stable identifier of an assessment: a hash of entity, score version and version. */
  type RiskIds = (Entity, string, nat) -> nat

  /** `persist_risk_assessment`. */
  function RiskPersisted(
      table: seq<RiskRow>, ids: RiskIds, e: Entity, a: Assessment): (seq<RiskRow>, Result<RiskRow, DbError>)
  {
    var latest := Latest(table, e);
    var version := if latest.Some? then latest.value.version + 1 else 1;
    var id := ids(e, a.scoreVersion, version);
    if IdUsed(table, id) then (table, Err(IdentifierTaken))
    else
      var row := NextRow(table, id, e, None, a);
      (table + [row], Ok(row))
  }

  // --- the repository ---

  class Repository {
    const hashOf: Config -> string
    const riskIds: RiskIds
    var sources: map<string, Source>
    var history: seq<HistoryRow>
    var documents: seq<DocumentRow>
    var risks: seq<RiskRow>

    constructor (hashOf: Config -> string, riskIds: RiskIds)
      ensures this.hashOf == hashOf && this.riskIds == riskIds
      ensures SourceView() == SourceTables(map[], []) && documents == [] && risks == []
    {
      this.hashOf, this.riskIds := hashOf, riskIds;
      sources, history, documents, risks := map[], [], [], [];
    }

    ghost function SourceView(): SourceTables
      reads this
    {
      SourceTables(sources, history)
    }

    method UpsertSource(c: Config) returns (source: Source)
      modifies this`sources, this`history
      ensures SourceView() == Upserted(old(SourceView()), hashOf, c)
      ensures c.sourceId in sources && source == sources[c.sourceId]
    {
      var hash := hashOf(c);
      var known := FindHistory(history, c.sourceId, hash);
      var latest := MaxVersion(history, c.sourceId);
      var version: nat;
      if known.Some? {
        version := known.value.version;
      } else {
        version := Max(if c.sourceId in sources then sources[c.sourceId].version + 1 else 1, latest + 1);
      }
      if c.sourceId in sources {
        source := sources[c.sourceId].(config := c, version := version);
      } else {
        source := Source(c, version, None, None, 0);
      }
      sources := sources[c.sourceId := source];
      if known.None? {
        history := history + [HistoryRow(c.sourceId, version, hash, c)];
      }
    }

    method UpdateSourceFreshness(r: SourceResult) returns (error: Option<DbError>)
      modifies this`sources
      ensures r.sourceId !in old(sources) ==> error == Some(SourceMissing) && sources == old(sources)
      ensures r.sourceId in old(sources) ==>
        error == None && sources == old(sources)[r.sourceId := Freshened(old(sources)[r.sourceId], r)]
    {
      if r.sourceId !in sources {
        return Some(SourceMissing);
      }
      var source := sources[r.sourceId];
      if r.outcome == Completed && r.completedAt.Some? {
        source := source.(lastSuccess := r.completedAt, failures := 0);
      } else if r.outcome == Failed && r.completedAt.Some? {
        source := source.(lastFailure := r.completedAt, failures := source.failures + 1);
      }
      sources := sources[r.sourceId := source];
      error := None;
    }

    method PersistSourceDocument(d: Document) returns (result: Result<DocumentRow, DbError>)
      modifies this`documents
      ensures (documents, result) == DocumentPersisted(old(documents), d)
    {
      var existing := FindDocument(documents, d.key, d.contentHash);
      if existing.Some? {
        return Ok(existing.value);
      }
      var latest := Latest(documents, d.key);
      if IdUsed(documents, d.id) {
        return Err(IdentifierTaken);
      }
      var record := Row(d.id, d.key, if latest.Some? then latest.value.version + 1 else 1,
                        if latest.Some? then Some(latest.value.id) else d.supersedes, d.contentHash);
      if !LinkResolves(documents, record) {
        return Err(LinkBroken);
      }
      documents := documents + [record];
      result := Ok(record);
    }

    method PersistRiskAssessment(e: Entity, a: Assessment) returns (result: Result<RiskRow, DbError>)
      modifies this`risks
      ensures (risks, result) == RiskPersisted(old(risks), riskIds, e, a)
    {
      var latest := Latest(risks, e);
      var version := if latest.Some? then latest.value.version + 1 else 1;
      var id := riskIds(e, a.scoreVersion, version);
      if IdUsed(risks, id) {
        return Err(IdentifierTaken);
      }
      var record := Row(id, e, version, if latest.Some? then Some(latest.value.id) else None, a);
      risks := risks + [record];
      result := Ok(record);
    }
  }

  // --- every run of source upserts ---

  function UpsertAll(hashOf: Config -> string, calls: seq<Config>): SourceTables {
    if calls == [] then SourceTables(map[], [])
    else Upserted(UpsertAll(hashOf, calls[..|calls| - 1]), hashOf, calls[|calls| - 1])
  }

  /** The distinct configurations of one source in the order they first came. */
  function FirstSeen(calls: seq<Config>, s: string): seq<Config> {
    if calls == [] then []
    else
      var before, c := FirstSeen(calls[..|calls| - 1], s), calls[|calls| - 1];
      if c.sourceId == s && c !in before then before + [c] else before
  }

  function HistoryOf(history: seq<HistoryRow>, s: string): seq<HistoryRow> {
    if history == [] then []
    else
      var last := history[|history| - 1];
      HistoryOf(history[..|history| - 1], s) + if last.sourceId == s then [last] else []
  }

  /** The configurations of one source, numbered 1..n without gaps. */
  ghost predicate Numbered(rows: seq<HistoryRow>, hashOf: Config -> string, s: string, configs: seq<Config>) {
    |rows| == |configs| && forall k | 0 <= k < |rows| :: rows[k] == HistoryRow(s, k + 1, hashOf(configs[k]), configs[k])
  }

  ghost predicate Injective(hashOf: Config -> string) {
    forall a, b :: hashOf(a) == hashOf(b) ==> a == b
  }

  lemma HistoryOfSnoc(history: seq<HistoryRow>, row: HistoryRow, s: string)
    ensures HistoryOf(history + [row], s)
         == if row.sourceId == s then HistoryOf(history, s) + [row] else HistoryOf(history, s)
  {
    assert (history + [row])[..|history|] == history;
  }

  lemma {:induction false} HistoryOfMembers(history: seq<HistoryRow>, s: string)
    ensures forall h :: h in HistoryOf(history, s) <==> h in history && h.sourceId == s
  {
    if history != [] {
      HistoryOfMembers(history[..|history| - 1], s);
      assert history == history[..|history| - 1] + [history[|history| - 1]];
    }
  }

  lemma {:induction false} MaxVersionIsLength(
      history: seq<HistoryRow>, hashOf: Config -> string, s: string, configs: seq<Config>)
    requires Numbered(HistoryOf(history, s), hashOf, s, configs)
    ensures MaxVersion(history, s) == |configs|
  {
    if history != [] {
      var front, last := history[..|history| - 1], history[|history| - 1];
      var rows := HistoryOf(history, s);
      if last.sourceId == s {
        assert HistoryOf(front, s) == rows[..|rows| - 1];
        MaxVersionIsLength(front, hashOf, s, configs[..|configs| - 1]);
        assert rows[|rows| - 1] == last;
      } else {
        MaxVersionIsLength(front, hashOf, s, configs);
      }
    }
  }

  lemma {:induction false} FirstSeenFacts(calls: seq<Config>, s: string)
    ensures var seen := FirstSeen(calls, s);
      && (forall c :: c in seen <==> c in calls && c.sourceId == s)
      && (forall j, k | 0 <= j < k < |seen| :: seen[j] != seen[k])
  {
    if calls != [] {
      FirstSeenFacts(calls[..|calls| - 1], s);
      assert calls == calls[..|calls| - 1] + [calls[|calls| - 1]];
    }
  }

  /** The current row of a source carries its last configuration under that configuration's number. */
  ghost predicate Current(t: SourceTables, calls: seq<Config>, s: string) {
    var seen := FirstSeen(calls, s);
    if seen == [] then s !in t.sources
    else s in t.sources && exists k | 0 <= k < |seen| ::
      && t.sources[s].version == k + 1 && t.sources[s].config == seen[k] && LastOf(calls, s) == Some(seen[k])
  }

  function LastOf(calls: seq<Config>, s: string): Option<Config> {
    if calls == [] then None
    else if calls[|calls| - 1].sourceId == s then Some(calls[|calls| - 1])
    else LastOf(calls[..|calls| - 1], s)
  }

  /** History and row of one source are as its calls leave them. */
  ghost predicate Follows(hashOf: Config -> string, t: SourceTables, calls: seq<Config>, s: string) {
    Numbered(HistoryOf(t.history, s), hashOf, s, FirstSeen(calls, s)) && Current(t, calls, s)
  }

  lemma FirstSeenSnoc(front: seq<Config>, c: Config, s: string)
    requires c.sourceId == s
    ensures FirstSeen(front + [c], s)
         == if c in FirstSeen(front, s) then FirstSeen(front, s) else FirstSeen(front, s) + [c]
    ensures LastOf(front + [c], s) == Some(c)
  {
    assert (front + [c])[..|front|] == front;
  }

  /** A configuration is in the history exactly when it was seen, under its number. */
  lemma KnownConfig(history: seq<HistoryRow>, hashOf: Config -> string, s: string, seen: seq<Config>, c: Config)
    requires Injective(hashOf) && Numbered(HistoryOf(history, s), hashOf, s, seen)
    ensures var known := FindHistory(history, s, hashOf(c));
      && (known.Some? <==> c in seen)
      && (known.Some? ==> 1 <= known.value.version <= |seen| && seen[known.value.version - 1] == c)
  {
    var rows, known := HistoryOf(history, s), FindHistory(history, s, hashOf(c));
    HistoryOfMembers(history, s);
    if known.Some? {
      assert known.value in rows;
      var k :| 0 <= k < |rows| && rows[k] == known.value;
      assert rows[k] == HistoryRow(s, k + 1, hashOf(seen[k]), seen[k]);
    }
    forall k | 0 <= k < |seen| && seen[k] == c ensures known.Some? {
      assert rows[k] in rows && rows[k] == HistoryRow(s, k + 1, hashOf(seen[k]), seen[k]);
    }
  }

  lemma UpsertOne(hashOf: Config -> string, front: seq<Config>, c: Config, s: string, t: SourceTables)
    requires Injective(hashOf) && c.sourceId == s && Follows(hashOf, t, front, s)
    ensures Follows(hashOf, Upserted(t, hashOf, c), front + [c], s)
  {
    hide HistoryOf, MaxVersion, FirstSeen, LastOf;
    var seen, hash := FirstSeen(front, s), hashOf(c);
    var version := ConfigurationVersion(t, c, hash);
    FirstSeenSnoc(front, c, s);
    KnownConfig(t.history, hashOf, s, seen, c);
    MaxVersionIsLength(t.history, hashOf, s, seen);
    HistoryOfSnoc(t.history, HistoryRow(s, version, hash, c), s);
    if c !in seen {
      assert version == |seen| + 1 && (seen + [c])[|seen|] == c;
    }
    assert FirstSeen(front + [c], s)[version - 1] == c;
  }

  /** An upsert of another source changes nothing for this one. */
  lemma UpsertOther(hashOf: Config -> string, front: seq<Config>, c: Config, s: string, t: SourceTables)
    requires c.sourceId != s && Follows(hashOf, t, front, s)
    ensures Follows(hashOf, Upserted(t, hashOf, c), front + [c], s)
  {
    var version := ConfigurationVersion(t, c, hashOf(c));
    OtherSeen(front, c, s);
    HistoryOfSnoc(t.history, HistoryRow(c.sourceId, version, hashOf(c), c), s);
    hide ConfigurationVersion, Numbered, FirstSeen, LastOf, HistoryOf;
  }

  lemma OtherSeen(front: seq<Config>, c: Config, s: string)
    requires c.sourceId != s
    ensures FirstSeen(front + [c], s) == FirstSeen(front, s) && LastOf(front + [c], s) == LastOf(front, s)
  {
    assert (front + [c])[..|front|] == front;
  }

  lemma NothingFollows(hashOf: Config -> string, s: string)
    ensures Follows(hashOf, SourceTables(map[], []), [], s)
  {
  }

  lemma {:induction false} UpsertsFollow(hashOf: Config -> string, calls: seq<Config>, s: string)
    requires Injective(hashOf)
    ensures Follows(hashOf, UpsertAll(hashOf, calls), calls, s)
  {
    hide Follows, Upserted;
    if calls == [] {
      NothingFollows(hashOf, s);
    } else {
      var front, c := calls[..|calls| - 1], calls[|calls| - 1];
      assert UpsertAll(hashOf, calls) == Upserted(UpsertAll(hashOf, front), hashOf, c);
      hide UpsertAll;
      assert calls == front + [c];
      UpsertsFollow(hashOf, front, s);
      if c.sourceId == s {
        UpsertOne(hashOf, front, c, s, UpsertAll(hashOf, front));
      } else {
        UpsertOther(hashOf, front, c, s, UpsertAll(hashOf, front));
      }
    }
  }

  /** From empty tables, after any upserts: a source's history is the list of its distinct
      configurations, each once, in first-seen order numbered 1..n, and its row shows the latest one
      under its number, also when a configuration comes back. */
  lemma SourceHistoryIsFirstSeen(hashOf: Config -> string, calls: seq<Config>, s: string)
    requires Injective(hashOf)
    ensures var t := UpsertAll(hashOf, calls);
      Numbered(HistoryOf(t.history, s), hashOf, s, FirstSeen(calls, s)) && Current(t, calls, s)
    ensures forall c :: c in FirstSeen(calls, s) <==> c in calls && c.sourceId == s
    ensures forall j, k | 0 <= j < k < |FirstSeen(calls, s)| :: FirstSeen(calls, s)[j] != FirstSeen(calls, s)[k]
  {
    FirstSeenFacts(calls, s);
    UpsertsFollow(hashOf, calls, s);
    hide Numbered, Current, UpsertAll, HistoryOf, FirstSeen;
  }

  // --- freshness over every run, upserts in between ---

  datatype SourceStep = Upsert(config: Config) | Finish(result: SourceResult)

  /** A finished result for a source that was never upserted is an error and changes nothing. */
  function StepOnce(t: SourceTables, hashOf: Config -> string, step: SourceStep): SourceTables {
    match step
    case Upsert(c) => Upserted(t, hashOf, c)
    case Finish(r) =>
      if r.sourceId in t.sources then t.(sources := t.sources[r.sourceId := Freshened(t.sources[r.sourceId], r)]) else t
  }

  function RunSteps(hashOf: Config -> string, steps: seq<SourceStep>): SourceTables {
    if steps == [] then SourceTables(map[], [])
    else StepOnce(RunSteps(hashOf, steps[..|steps| - 1]), hashOf, steps[|steps| - 1])
  }

  function UpsertsOf(steps: seq<SourceStep>): seq<Config> {
    if steps == [] then []
    else
      var last := steps[|steps| - 1];
      UpsertsOf(steps[..|steps| - 1]) + if last.Upsert? then [last.config] else []
  }

  /** The dated successes and failures of one source since its first upsert. */
  function OutcomesOf(hashOf: Config -> string, steps: seq<SourceStep>, s: string): seq<SourceResult> {
    if steps == [] then []
    else
      var front, last := steps[..|steps| - 1], steps[|steps| - 1];
      OutcomesOf(hashOf, front, s)
      + if last.Finish? && last.result.sourceId == s && Counts(last.result) && s in RunSteps(hashOf, front).sources
        then [last.result] else []
  }

  predicate Counts(r: SourceResult) {
    r.completedAt.Some? && r.outcome != Other
  }

  /** Failed results since the last success. */
  function TrailingFailures(results: seq<SourceResult>): nat {
    if results == [] || results[|results| - 1].outcome == Completed then 0
    else TrailingFailures(results[..|results| - 1]) + 1
  }

  function LatestOf(results: seq<SourceResult>, outcome: Outcome): Option<int> {
    if results == [] then None
    else
      var last := results[|results| - 1];
      if last.outcome == outcome then last.completedAt else LatestOf(results[..|results| - 1], outcome)
  }

  ghost predicate FreshnessOf(source: Source, results: seq<SourceResult>) {
    && source.failures == TrailingFailures(results)
    && source.lastSuccess == LatestOf(results, Completed) && source.lastFailure == LatestOf(results, Failed)
  }

  lemma FreshenedFacts(source: Source, results: seq<SourceResult>, r: SourceResult)
    requires FreshnessOf(source, results)
    ensures FreshnessOf(Freshened(source, r), results + if Counts(r) then [r] else [])
  {
    assert (results + [r])[..|results|] == results && results + [] == results;
  }

  /** The two writers do not disturb each other: configurations, versions and history are those of
      the upserts alone. */
  ghost predicate SameConfigurations(t: SourceTables, u: SourceTables) {
    t.history == u.history && forall s :: SameConfiguration(t, u, s)
  }

  ghost predicate SameConfiguration(t: SourceTables, u: SourceTables, s: string) {
    && (s in t.sources <==> s in u.sources)
    && (s in t.sources ==> t.sources[s].config == u.sources[s].config && t.sources[s].version == u.sources[s].version)
  }

  lemma UpsertedAlike(t: SourceTables, u: SourceTables, hashOf: Config -> string, c: Config)
    requires SameConfigurations(t, u)
    ensures SameConfigurations(Upserted(t, hashOf, c), Upserted(u, hashOf, c))
  {
    assert SameConfiguration(t, u, c.sourceId);
    assert ConfigurationVersion(t, c, hashOf(c)) == ConfigurationVersion(u, c, hashOf(c));
    hide ConfigurationVersion;
    forall s ensures SameConfiguration(Upserted(t, hashOf, c), Upserted(u, hashOf, c), s) {
      assert SameConfiguration(t, u, s);
    }
  }

  lemma FinishedAlike(t: SourceTables, u: SourceTables, hashOf: Config -> string, r: SourceResult)
    requires SameConfigurations(t, u)
    ensures SameConfigurations(StepOnce(t, hashOf, Finish(r)), u)
  {
    forall s ensures SameConfiguration(StepOnce(t, hashOf, Finish(r)), u, s) {
      assert SameConfiguration(t, u, s);
    }
  }

  lemma {:induction false} StepsKeepConfigurations(hashOf: Config -> string, steps: seq<SourceStep>)
    ensures SameConfigurations(RunSteps(hashOf, steps), UpsertAll(hashOf, UpsertsOf(steps)))
  {
    if steps != [] {
      var front, last := steps[..|steps| - 1], steps[|steps| - 1];
      StepsKeepConfigurations(hashOf, front);
      hide Upserted, SameConfigurations;
      var t, calls := RunSteps(hashOf, front), UpsertsOf(front);
      match last
      case Upsert(c) =>
        UpsertedAlike(t, UpsertAll(hashOf, calls), hashOf, c);
        assert (calls + [c])[..|calls|] == calls;
      case Finish(r) =>
        FinishedAlike(t, UpsertAll(hashOf, calls), hashOf, r);
        assert UpsertsOf(steps) == UpsertsOf(front);
    }
  }

  /** In every interleaving of upserts and finished results, from empty tables: the failure count
      is the number of failures since the last success, and the two times are those of the latest
      success and failure. */
  lemma {:induction false} FreshnessFollowsOutcomes(hashOf: Config -> string, steps: seq<SourceStep>, s: string)
    ensures s !in RunSteps(hashOf, steps).sources ==> OutcomesOf(hashOf, steps, s) == []
    ensures s in RunSteps(hashOf, steps).sources ==>
              FreshnessOf(RunSteps(hashOf, steps).sources[s], OutcomesOf(hashOf, steps, s))
  {
    if steps != [] {
      var front, last := steps[..|steps| - 1], steps[|steps| - 1];
      FreshnessFollowsOutcomes(hashOf, front, s);
      var before, results := RunSteps(hashOf, front), OutcomesOf(hashOf, front, s);
      assert results + [] == results;
      if last.Finish? && last.result.sourceId == s && s in before.sources {
        FreshenedFacts(before.sources[s], results, last.result);
      }
    }
  }

  // --- every run of document writes ---

  function PersistAll(docs: seq<Document>): seq<DocumentRow> {
    if docs == [] then [] else DocumentPersisted(PersistAll(docs[..|docs| - 1]), docs[|docs| - 1]).0
  }

  ghost predicate DistinctContent(table: seq<DocumentRow>) {
    forall i, j | 0 <= i < j < |table| && table[i].group == table[j].group :: table[i].payload != table[j].payload
  }

  /** Over any run, the rows of one (source, identity) carry versions 1..n, each superseding the
      one before it, with distinct content and distinct identifiers. */
  lemma {:induction false} DocumentsFormChains(docs: seq<Document>)
    ensures Chained(PersistAll(docs)) && DistinctContent(PersistAll(docs))
  {
    if docs != [] {
      DocumentsFormChains(docs[..|docs| - 1]);
      DocumentKeepsChains(PersistAll(docs[..|docs| - 1]), docs[|docs| - 1]);
    }
  }

  lemma DocumentKeepsChains(table: seq<DocumentRow>, d: Document)
    requires Chained(table) && DistinctContent(table)
    ensures Chained(DocumentPersisted(table, d).0) && DistinctContent(DocumentPersisted(table, d).0)
  {
    if FindDocument(table, d.key, d.contentHash).None? && !IdUsed(table, d.id) {
      hide LinkResolves;
      AppendKeepsChains(table, d.id, d.key, d.supersedes, d.contentHash);
      assert forall i | 0 <= i < |table| :: table[i] in table;
    }
  }

  /** What becomes of a document: known content adds nothing and always succeeds; new content needs an
      unused identifier and, when it opens an identity with a link, a row to link to, its own allowed. */
  ghost predicate Storable(table: seq<DocumentRow>, d: Document) {
    || (exists i | 0 <= i < |table| :: table[i].group == d.key && table[i].payload == d.contentHash)
    || ((forall i | 0 <= i < |table| :: table[i].id != d.id)
        && (InGroup(table, d.key) != [] || d.supersedes.None? || d.supersedes.value == d.id
            || exists i | 0 <= i < |table| :: table[i].id == d.supersedes.value))
  }

  /** A refused document changes nothing.  A stored one grows its identity's chain by itself, under
      its identifier and hash, unless the content was there, which then is the row handed back. */
  lemma DocumentStoredExactly(table: seq<DocumentRow>, d: Document)
    requires Chained(table)
    ensures var (after, result) := DocumentPersisted(table, d);
      && (result.Ok? <==> Storable(table, d))
      && (result.Err? ==> after == table)
      && (result.Ok? ==> result.value in after && result.value.group == d.key && result.value.payload == d.contentHash)
      && (result.Ok? && result.value !in table ==>
            && after == table + [result.value] && result.value.id == d.id
            && result.value.version == |InGroup(table, d.key)| + 1)
      && (result.Ok? && result.value in table ==> after == table)
  {
    hide InGroup, Chained;
    assert table == [] ==> Latest(table, d.key).None?;
    LatestIsLast(table, d.key);
    NextContinues(table, d.id, d.key, d.supersedes, d.contentHash);
    assert forall i | 0 <= i < |table| :: table[i] in table;
    var row := NextRow(table, d.id, d.key, d.supersedes, d.contentHash);
    assert (table + [row])[|table|] == row;
  }

  /** A document that would become the first row of its identity and names itself. */
  predicate StoresLoop(table: seq<DocumentRow>, d: Document) {
    Latest(table, d.key).None? && !IdUsed(table, d.id) && d.supersedes == Some(d.id)
  }

  lemma DocumentLinksBack(table: seq<DocumentRow>, d: Document)
    requires LinksBack(table)
    ensures LinksBack(DocumentPersisted(table, d).0)
  {
    var row := NextRow(table, d.id, d.key, d.supersedes, d.contentHash);
    if DocumentPersisted(table, d).0 != table {
      AppendLinksBack(table, row);
    }
  }

  ghost predicate NoLoop(table: seq<DocumentRow>) {
    forall i | 0 <= i < |table| :: !NamesItself(table[i])
  }

  lemma DocumentAddsLoop(table: seq<DocumentRow>, d: Document)
    ensures NoLoop(DocumentPersisted(table, d).0) <==> NoLoop(table) && !StoresLoop(table, d)
  {
    var row, after := NextRow(table, d.id, d.key, d.supersedes, d.contentHash), DocumentPersisted(table, d).0;
    var latest := Latest(table, d.key);
    if after != table {
      assert after == table + [row] && after[|table|] == row;
      assert forall i | 0 <= i < |table| :: after[i] == table[i];
      if latest.Some? {
        var j :| 0 <= j < |table| && table[j] == latest.value;
        assert latest.value.id != d.id;
      }
    }
  }

  /** No document of a run opened a new identity and named itself. */
  ghost predicate StoresNoLoop(docs: seq<Document>) {
    forall n | 0 <= n < |docs| :: !StoresLoop(PersistAll(docs[..n]), docs[n])
  }

  lemma StoresNoLoopSnoc(front: seq<Document>, last: Document)
    ensures StoresNoLoop(front + [last]) <==> StoresNoLoop(front) && !StoresLoop(PersistAll(front), last)
  {
    hide PersistAll, StoresLoop;
    var all := front + [last];
    assert all[..|front|] == front;
    assert forall n | 0 <= n < |front| :: front[..n] == all[..n] && front[n] == all[n];
    if StoresNoLoop(all) {
      assert !StoresLoop(PersistAll(all[..|front|]), all[|front|]);
    }
  }

  lemma {:induction false} LoopsAreStored(docs: seq<Document>)
    ensures LinksBack(PersistAll(docs))
    ensures NoLoop(PersistAll(docs)) <==> StoresNoLoop(docs)
  {
    if docs != [] {
      var front, last := docs[..|docs| - 1], docs[|docs| - 1];
      LoopsAreStored(front);
      DocumentLinksBack(PersistAll(front), last);
      DocumentAddsLoop(PersistAll(front), last);
      StoresNoLoopSnoc(front, last);
      assert docs == front + [last] && PersistAll(docs) == DocumentPersisted(PersistAll(front), last).0;
      hide PersistAll, StoresLoop, StoresNoLoop, NoLoop, LinksBack, DocumentPersisted;
    }
  }

  /** Over any run, following the superseded documents from any row ends exactly when no document
      that opened a new identity named itself. */
  lemma DocumentLinksEnd(docs: seq<Document>)
    ensures var table := PersistAll(docs);
      (forall i: nat | i < |table| :: Ends(table, i)) <==> StoresNoLoop(docs)
  {
    DocumentsFormChains(docs);
    LoopsAreStored(docs);
    LinksEndExactly(PersistAll(docs));
  }

  /** Such a document is stored. */
  lemma DocumentMayNameItself(d: Document)
    requires d.supersedes == Some(d.id)
    ensures var table := PersistAll([d]); |table| == 1 && NamesItself(table[0]) && !Ends(table, 0)
  {
    assert [d][..0] == [] && PersistAll([]) == [];
    var row := NextRow([], d.id, d.key, d.supersedes, d.contentHash);
    assert PersistAll([d]) == [row];
    forall n ensures Followed([row], 0, n).Some? {
      LoopNeverEnds([row], 0, n);
    }
  }

  /** Persisting content that is already known returns its row and changes nothing, now and after
      any further writes. */
  lemma {:induction false} KnownContentIsStable(table: seq<DocumentRow>, d: Document, more: seq<Document>)
    requires Chained(table) && DistinctContent(table) && DocumentPersisted(table, d).1.Ok?
    ensures var row := DocumentPersisted(table, d).1.value;
      var later := PersistFrom(DocumentPersisted(table, d).0, more);
      row in later && DocumentPersisted(later, d) == (later, Ok(row))
  {
    var start, row := DocumentPersisted(table, d).0, DocumentPersisted(table, d).1.value;
    assert row in start && row.group == d.key && row.payload == d.contentHash by {
      if FindDocument(table, d.key, d.contentHash).None? { assert start[|table|] == row; }
    }
    DocumentKeepsChains(table, d);
    PersistFromGrows(start, more);
    var later := PersistFrom(start, more);
    var found := FindDocument(later, d.key, d.contentHash);
    assert row in later;
    var i :| 0 <= i < |later| && later[i] == row;
    var j :| 0 <= j < |later| && later[j] == found.value;
    assert i == j;
  }

  function PersistFrom(table: seq<DocumentRow>, docs: seq<Document>): seq<DocumentRow> {
    if docs == [] then table else DocumentPersisted(PersistFrom(table, docs[..|docs| - 1]), docs[|docs| - 1]).0
  }

  lemma {:induction false} PersistFromGrows(table: seq<DocumentRow>, docs: seq<Document>)
    requires Chained(table) && DistinctContent(table)
    ensures table <= PersistFrom(table, docs) && Chained(PersistFrom(table, docs))
        && DistinctContent(PersistFrom(table, docs))
  {
    if docs != [] {
      PersistFromGrows(table, docs[..|docs| - 1]);
      DocumentKeepsChains(PersistFrom(table, docs[..|docs| - 1]), docs[|docs| - 1]);
    }
  }

  // --- every run of assessments ---

  function AssessAll(ids: RiskIds, calls: seq<(Entity, Assessment)>): seq<RiskRow> {
    if calls == [] then []
    else RiskPersisted(AssessAll(ids, calls[..|calls| - 1]), ids, calls[|calls| - 1].0, calls[|calls| - 1].1).0
  }

  function AssessmentsOf(calls: seq<(Entity, Assessment)>, e: Entity): seq<Assessment> {
    if calls == [] then []
    else
      var last := calls[|calls| - 1];
      AssessmentsOf(calls[..|calls| - 1], e) + if last.0 == e then [last.1] else []
  }

  ghost predicate InjectiveIds(ids: RiskIds) {
    forall e, s, v, e', s', v' :: ids(e, s, v) == ids(e', s', v') ==> (e, s, v) == (e', s', v')
  }

  /** Every identifier is the stable one of its row. */
  ghost predicate StableIds(table: seq<RiskRow>, ids: RiskIds) {
    forall i | 0 <= i < |table| :: table[i].id == ids(table[i].group, table[i].payload.scoreVersion, table[i].version)
  }

  /** An entity's chain holds its assessments, each once, in the order they were made. */
  ghost predicate Holds(rows: seq<RiskRow>, assessments: seq<Assessment>) {
    |rows| == |assessments| && forall k | 0 <= k < |rows| :: rows[k].payload == assessments[k]
  }

  lemma AssessmentAppends(table: seq<RiskRow>, ids: RiskIds, who: Entity, a: Assessment) returns (row: RiskRow)
    requires InjectiveIds(ids) && Chained(table) && StableIds(table, ids)
    ensures RiskPersisted(table, ids, who, a).0 == table + [row] && row.group == who && row.payload == a
    ensures LinkResolves(table, row) && !NamesItself(row)
    ensures row.supersedes.None? <==> InGroup(table, who) == []
    ensures Chained(table + [row]) && StableIds(table + [row], ids)
  {
    var latest := Latest(table, who);
    var id := ids(who, a.scoreVersion, if latest.Some? then latest.value.version + 1 else 1);
    row := NextRow(table, id, who, None, a);
    RiskNeverTaken(table, ids, who, a);
    NextRowLinks(table, id, who, a);
    hide Chained, Latest, InGroup, LinkResolves, NamesItself;
    AppendKeepsChains(table, id, who, None, a);
  }

  /** The next assessment links to the latest one, the first to nothing. */
  lemma NextRowLinks(table: seq<RiskRow>, id: nat, who: Entity, a: Assessment)
    requires Chained(table) && !IdUsed(table, id)
    ensures var row := NextRow(table, id, who, None, a);
      LinkResolves(table, row) && !NamesItself(row) && (row.supersedes.None? <==> InGroup(table, who) == [])
  {
    var latest := Latest(table, who);
    LatestIsLast(table, who);
    hide Chained, InGroup;
    if latest.Some? {
      var j :| 0 <= j < |table| && table[j] == latest.value;
      assert IdUsed(table, latest.value.id);
    }
  }

  ghost predicate Unlinked(rows: seq<RiskRow>) {
    rows != [] ==> rows[0].supersedes == None
  }

  ghost predicate AllLinksGoBack(table: seq<RiskRow>) {
    LinksBack(table) && forall i | 0 <= i < |table| :: !NamesItself(table[i])
  }

  lemma AssessmentLinksBack(table: seq<RiskRow>, row: RiskRow)
    requires AllLinksGoBack(table) && LinkResolves(table, row) && !NamesItself(row)
    ensures AllLinksGoBack(table + [row])
  {
    AppendLinksBack(table, row);
  }

  lemma {:induction false} AssessmentsKeepTable(ids: RiskIds, calls: seq<(Entity, Assessment)>)
    requires InjectiveIds(ids)
    ensures var table := AssessAll(ids, calls); Chained(table) && StableIds(table, ids) && AllLinksGoBack(table)
  {
    if calls != [] {
      var table, last := AssessAll(ids, calls[..|calls| - 1]), calls[|calls| - 1];
      AssessmentsKeepTable(ids, calls[..|calls| - 1]);
      hide Chained, StableIds, RiskPersisted, AllLinksGoBack, LinkResolves, NamesItself, InjectiveIds;
      var row := AssessmentAppends(table, ids, last.0, last.1);
      AssessmentLinksBack(table, row);
    }
  }

  lemma HoldsSnoc(rows: seq<RiskRow>, made: seq<Assessment>, row: RiskRow)
    requires Holds(rows, made) && Unlinked(rows) && (row.supersedes.None? <==> rows == [])
    ensures Holds(rows + [row], made + [row.payload]) && Unlinked(rows + [row])
  {
  }

  /** No assessment is ever refused: per entity they form one gap-free chain in call order, whose
      first row supersedes nothing. */
  lemma {:induction false} AssessmentsFormChains(ids: RiskIds, calls: seq<(Entity, Assessment)>, e: Entity)
    requires InjectiveIds(ids)
    ensures var table := AssessAll(ids, calls);
      Chained(table) && Holds(InGroup(table, e), AssessmentsOf(calls, e)) && Unlinked(InGroup(table, e))
  {
    AssessmentsKeepTable(ids, calls);
    if calls != [] {
      var front, last := calls[..|calls| - 1], calls[|calls| - 1];
      var table := AssessAll(ids, front);
      AssessmentsFormChains(ids, front, e);
      AssessmentsKeepTable(ids, front);
      hide Chained, StableIds, InGroup, RiskPersisted, AllLinksGoBack, LinkResolves, NamesItself, InjectiveIds,
        Holds, Unlinked;
      var row := AssessmentAppends(table, ids, last.0, last.1);
      InGroupSnoc(table, row, e);
      if last.0 == e {
        HoldsSnoc(InGroup(table, e), AssessmentsOf(front, e), row);
      } else {
        assert AssessmentsOf(calls, e) == AssessmentsOf(front, e);
      }
    }
  }

  /** Following the superseded assessments from any row, the first of its entity included, ends. */
  lemma AssessmentLinksEnd(ids: RiskIds, calls: seq<(Entity, Assessment)>, i: nat)
    requires InjectiveIds(ids) && i < |AssessAll(ids, calls)|
    ensures Ends(AssessAll(ids, calls), i)
  {
    AssessmentsKeepTable(ids, calls);
    LinksEndExactly(AssessAll(ids, calls));
  }

  lemma RiskNeverTaken(table: seq<RiskRow>, ids: RiskIds, e: Entity, a: Assessment)
    requires InjectiveIds(ids) && StableIds(table, ids)
    ensures RiskPersisted(table, ids, e, a).1.Ok?
  {
    var latest := Latest(table, e);
    var version := if latest.Some? then latest.value.version + 1 else 1;
    forall i | 0 <= i < |table| ensures table[i].id != ids(e, a.scoreVersion, version) {
      assert table[i].id == ids(table[i].group, table[i].payload.scoreVersion, table[i].version);
    }
  }
}
