/** db/pipeline.py `run_once` with the tables of db/repositories.py: the advisory lock, the
    collection transaction, and the enrichment stage, alone and with many workers interleaving. */
module DailyRun {
  import P = Persistence
  import Sorting
  import VersionChains
  import opened Wrappers

  datatype Status = Scheduled | Running | Completed | Failed | Skipped

  /** One ingestion_run row. */
  datatype RunRow = RunRow(key: string, status: Status, completedAt: Option<int>, newFindings: nat)

  /** The outcome a collection reports for its run. */
  datatype Manifest = Manifest(status: Status, completedAt: Option<int>)

  /** A collected document and the findings its extraction persists, or nothing when it raises. */
  datatype Delivered = Delivered(document: P.Document, findings: Option<nat>)

  /** What the registry and the collection deliver. */
  datatype Collection =
    | CollectionRaises
    | Collected(manifest: Manifest, sources: seq<P.Config>, results: seq<P.SourceResult>, documents: seq<Delivered>)

  /** The tables that the transaction writes; `hashOf` is the configuration hash. */
  datatype Tables = Tables(
    hashOf: P.Config -> string, rows: seq<RunRow>, sources: P.SourceTables, documents: seq<P.DocumentRow>)

  datatype RunResult = NotAcquired | Raised | Returned(row: RunRow, enriched: bool)

  // --- the collection transaction ---

  function FindRun(rows: seq<RunRow>, key: string): (i: Option<nat>)
    ensures i.Some? ==> i.value < |rows| && rows[i.value].key == key
    ensures i.None? ==> forall k | 0 <= k < |rows| :: rows[k].key != key
  {
    if rows == [] then None
    else if rows[|rows| - 1].key == key then Some(|rows| - 1)
    else FindRun(rows[..|rows| - 1], key)
  }

  /** `create_or_get_run`: insert unless the key exists. */
  function CreateOrGet(rows: seq<RunRow>, key: string): seq<RunRow> {
    if FindRun(rows, key).Some? then rows else rows + [RunRow(key, Running, None, 0)]
  }

  /** A completed run with findings is final. */
  predicate Final(row: RunRow) {
    row.status == Completed && row.completedAt.Some? && row.newFindings > 0
  }

  predicate Terminal(s: Status) {
    s == Completed || s == Failed || s == Skipped
  }

  /** The table's check constraint. */
  predicate Consistent(row: RunRow) {
    Terminal(row.status) <==> row.completedAt.Some?
  }

  /** Sum of the findings; nothing when some extraction raises. */
  function Findings(documents: seq<Delivered>): Option<nat> {
    if documents == [] then Some(0)
    else match (Findings(documents[..|documents| - 1]), documents[|documents| - 1].findings)
      case (Some(n), Some(m)) => Some(n + m)
      case _ => None
  }

  function Upserted(t: P.SourceTables, hashOf: P.Config -> string, configs: seq<P.Config>): P.SourceTables {
    if configs == [] then t
    else P.Upserted(Upserted(t, hashOf, configs[..|configs| - 1]), hashOf, configs[|configs| - 1])
  }

  /** Nothing when a result names a source that was not upserted. */
  function Finished(t: P.SourceTables, results: seq<P.SourceResult>): Option<P.SourceTables> {
    if results == [] then Some(t)
    else
      var r := results[|results| - 1];
      match Finished(t, results[..|results| - 1])
      case None => None
      case Some(u) =>
        if r.sourceId in u.sources
        then Some(u.(sources := u.sources[r.sourceId := P.Freshened(u.sources[r.sourceId], r)]))
        else None
  }

  /** Nothing when a document violates a key. */
  function Persisted(table: seq<P.DocumentRow>, documents: seq<Delivered>): Option<seq<P.DocumentRow>> {
    if documents == [] then Some(table)
    else
      match Persisted(table, documents[..|documents| - 1])
      case None => None
      case Some(before) =>
        var (after, result) := P.DocumentPersisted(before, documents[|documents| - 1].document);
        if result.Ok? then Some(after) else None
  }

  /** Sources, their freshness and documents after the writes of one collection. */
  function Stored(db: Tables, c: Collection): Option<Tables>
    requires c.Collected?
  {
    match (Finished(Upserted(db.sources, db.hashOf, c.sources), c.results), Persisted(db.documents, c.documents))
    case (Some(sources), Some(documents)) => Some(db.(sources := sources, documents := documents))
    case _ => None
  }

  /** What the transaction commits: nothing when it raises, otherwise the tables, the run's row and
      whether extraction ran. */
  function Transaction(db: Tables, key: string, c: Collection): Option<(Tables, RunRow, bool)>
    requires c.Collected?
  {
    var all := CreateOrGet(db.rows, key);
    var i := FindRun(all, key).value;
    if Final(all[i]) then Some((db.(rows := all), all[i], false))
    else
      match Stored(db, c)
      case None => None
      case Some(stored) =>
        var row := all[i].(status := c.manifest.status, completedAt := c.manifest.completedAt);
        if !Consistent(row) then None
        else if c.documents == [] then Some((stored.(rows := all[i := row]), row, false))
        else match Findings(c.documents)
          case None => None
          case Some(n) => Some((stored.(rows := all[i := row.(newFindings := n)]), row.(newFindings := n), true))
  }

  /** A whole attempt of a worker that got the lock. */
  function Attempt(db: Tables, key: string, c: Collection, enrichRaises: bool): (Tables, RunResult) {
    match c
    case CollectionRaises => (db, Raised)
    case Collected(_, _, _, _) =>
      match Transaction(db, key, c)
      case None => (db, Raised)
      case Some((after, row, extracted)) =>
        if extracted && enrichRaises then (after, Raised) else (after, Returned(row, extracted))
  }

  class Database {
    const hashOf: P.Config -> string
    var locked: bool
    var rows: seq<RunRow>
    var sources: P.SourceTables
    var documents: seq<P.DocumentRow>

    constructor (hashOf: P.Config -> string)
      ensures this.hashOf == hashOf && !locked && View() == Empty(hashOf)
    {
      this.hashOf := hashOf;
      locked, rows, sources, documents := false, [], P.SourceTables(map[], []), [];
    }

    ghost function View(): Tables
      reads this
    {
      Tables(hashOf, rows, sources, documents)
    }

    /** One attempt without interference: whatever happens inside, the lock is as before. */
    method RunOnce(key: string, collection: Collection, enrichRaises: bool) returns (result: RunResult)
      modifies this
      ensures locked == old(locked)
      ensures old(locked) ==> result == NotAcquired && View() == old(View())
      ensures !old(locked) ==> (View(), result) == Attempt(old(View()), key, collection, enrichRaises)
    {
      if locked {
        return NotAcquired;
      }
      locked := true;
      if collection.CollectionRaises? {
        result := Raised;
      } else {
        var done := PersistCollection(key, collection);
        match done {
          case None => result := Raised;
          case Some((row, extracted)) =>
            result := if extracted && enrichRaises then Raised else Returned(row, extracted);
        }
      }
      locked := false;
    }

    /** The transaction: an exception restores every table to where it started. */
    method PersistCollection(key: string, c: Collection) returns (done: Option<(RunRow, bool)>)
      requires c.Collected?
      modifies this`rows, this`sources, this`documents
      ensures match Transaction(old(View()), key, c)
        case None => done == None && View() == old(View())
        case Some((after, row, extracted)) => done == Some((row, extracted)) && View() == after
    {
      hide Transaction;
      var rows0, sources0, documents0 := rows, sources, documents;
      done := Write(key, c);
      if done.None? {
        rows, sources, documents := rows0, sources0, documents0;
      }
    }

    /** The writes of the transaction, up to the first exception. */
    method Write(key: string, c: Collection) returns (done: Option<(RunRow, bool)>)
      requires c.Collected?
      modifies this`rows, this`sources, this`documents
      ensures match Transaction(old(View()), key, c)
        case None => done == None
        case Some((after, row, extracted)) => done == Some((row, extracted)) && View() == after
    {
      hide Findings, Upserted, Finished, Persisted, Final, Consistent;
      rows := CreateOrGet(rows, key);
      var i := FindRun(rows, key).value;
      if Final(rows[i]) {
        return Some((rows[i], false));
      }
      UpsertSources(c.sources);
      var known := UpdateFreshness(c.results);
      if !known {
        return None;
      }
      var stored := PersistDocuments(c.documents);
      if !stored {
        return None;
      }
      var run := rows[i].(status := c.manifest.status, completedAt := c.manifest.completedAt);
      if !Consistent(run) {
        return None;
      }
      if c.documents != [] {
        var newFindings := Extract(c.documents);
        if newFindings.None? {
          return None;
        }
        run := run.(newFindings := newFindings.value);
      }
      rows := rows[i := run];
      done := Some((run, c.documents != []));
    }

    method UpsertSources(configs: seq<P.Config>)
      modifies this`sources
      ensures sources == Upserted(old(sources), hashOf, configs)
    {
      for k := 0 to |configs|
        invariant sources == Upserted(old(sources), hashOf, configs[..k])
      {
        assert configs[..k + 1][..k] == configs[..k];
        sources := P.Upserted(sources, hashOf, configs[k]);
      }
      assert configs[..|configs|] == configs;
    }

    method UpdateFreshness(results: seq<P.SourceResult>) returns (known: bool)
      modifies this`sources
      ensures known <==> Finished(old(sources), results).Some?
      ensures known ==> sources == Finished(old(sources), results).value
    {
      for k := 0 to |results|
        invariant Finished(old(sources), results[..k]) == Some(sources)
      {
        assert results[..k + 1][..k] == results[..k];
        var r := results[k];
        if r.sourceId !in sources.sources {
          UnknownSticks(old(sources), results, k + 1);
          return false;
        }
        sources := sources.(sources := sources.sources[r.sourceId := P.Freshened(sources.sources[r.sourceId], r)]);
      }
      assert results[..|results|] == results;
      known := true;
    }

    method PersistDocuments(delivered: seq<Delivered>) returns (stored: bool)
      modifies this`documents
      ensures stored <==> Persisted(old(documents), delivered).Some?
      ensures stored ==> documents == Persisted(old(documents), delivered).value
    {
      for k := 0 to |delivered|
        invariant Persisted(old(documents), delivered[..k]) == Some(documents)
      {
        hide P.DocumentPersisted, Transaction, P.PersistAll, Persisted;
        PersistedNext(old(documents), delivered, k);
        var (after, result) := P.DocumentPersisted(documents, delivered[k].document);
        if result.Err? {
          RefusalSticks(old(documents), delivered, k + 1);
          return false;
        }
        documents := after;
      }
      assert delivered[..|delivered|] == delivered;
      stored := true;
    }

    method Extract(delivered: seq<Delivered>) returns (newFindings: Option<nat>)
      ensures newFindings == Findings(delivered)
    {
      var total: nat := 0;
      for k := 0 to |delivered|
        invariant Findings(delivered[..k]) == Some(total)
      {
        assert delivered[..k + 1][..k] == delivered[..k];
        if delivered[k].findings.None? {
          RaisesStick(delivered, k + 1);
          return None;
        }
        total := total + delivered[k].findings.value;
      }
      assert delivered[..|delivered|] == delivered;
      newFindings := Some(total);
    }
  }

  function Empty(hashOf: P.Config -> string): Tables {
    Tables(hashOf, [], P.SourceTables(map[], []), [])
  }

  lemma PersistedNext(table: seq<P.DocumentRow>, documents: seq<Delivered>, k: nat)
    requires k < |documents| && Persisted(table, documents[..k]).Some?
    ensures var (after, result) := P.DocumentPersisted(Persisted(table, documents[..k]).value, documents[k].document);
      Persisted(table, documents[..k + 1]) == if result.Ok? then Some(after) else None
  {
    hide P.DocumentPersisted;
    assert documents[..k + 1][..k] == documents[..k];
  }

  lemma {:induction false} RaisesStick(documents: seq<Delivered>, n: nat)
    requires n <= |documents| && Findings(documents[..n]).None?
    ensures Findings(documents).None?
    decreases |documents|
  {
    if n < |documents| {
      assert documents[..|documents| - 1][..n] == documents[..n];
      RaisesStick(documents[..|documents| - 1], n);
    } else {
      assert documents[..n] == documents;
    }
  }

  lemma {:induction false} UnknownSticks(t: P.SourceTables, results: seq<P.SourceResult>, n: nat)
    requires n <= |results| && Finished(t, results[..n]).None?
    ensures Finished(t, results).None?
    decreases |results|
  {
    if n < |results| {
      assert results[..|results| - 1][..n] == results[..n];
      UnknownSticks(t, results[..|results| - 1], n);
    } else {
      assert results[..n] == results;
    }
  }

  lemma {:induction false} RefusalSticks(table: seq<P.DocumentRow>, documents: seq<Delivered>, n: nat)
    requires n <= |documents| && Persisted(table, documents[..n]).None?
    ensures Persisted(table, documents).None?
    decreases |documents|
  {
    if n < |documents| {
      assert documents[..|documents| - 1][..n] == documents[..n];
      RefusalSticks(table, documents[..|documents| - 1], n);
    } else {
      assert documents[..n] == documents;
    }
  }

  // --- many workers ---

  datatype Phase =
    | Idle
    | Holding(key: string)                          // lock acquired, about to collect
    | Persisting(key: string, collection: Collection)  // collected, about to run the transaction
    | Enriching(row: RunRow)                        // transaction committed, about to enrich
    | Releasing(result: RunResult)                  // in the `finally` block
    | Done(result: RunResult)
    | Gone                                          // process died; the database dropped its session

  /** `owner` is the session that holds the advisory lock. */
  datatype System = System(owner: Option<nat>, db: Tables, workers: seq<Phase>)

  datatype Action =
    | TryLock(w: nat, key: string)
    | Collect(w: nat, collection: Collection)
    | Persist(w: nat)
    | Enrich(w: nat, raises: bool)
    | Release(w: nat)
    | Die(w: nat)

  predicate InCritical(p: Phase) {
    p.Holding? || p.Persisting? || p.Enriching? || p.Releasing?
  }

  /** A worker's step on its own phase, the lock and the tables. */
  function Effect(owner: Option<nat>, db: Tables, p: Phase, a: Action): (Option<nat>, Tables, Phase) {
    match a
    case TryLock(w, key) =>
      if p != Idle then (owner, db, p)
      else if owner.Some? then (owner, db, Done(NotAcquired))
      else (Some(w), db, Holding(key))
    case Collect(_, collection) =>
      if !p.Holding? then (owner, db, p)
      else if collection.CollectionRaises? then (owner, db, Releasing(Raised))
      else (owner, db, Persisting(p.key, collection))
    case Persist(_) =>
      if !p.Persisting? || p.collection.CollectionRaises? then (owner, db, p)
      else (match Transaction(db, p.key, p.collection)
        case None => (owner, db, Releasing(Raised))
        case Some((after, row, extracted)) =>
          (owner, after, if extracted then Enriching(row) else Releasing(Returned(row, false))))
    case Enrich(_, raises) =>
      if !p.Enriching? then (owner, db, p)
      else (owner, db, Releasing(if raises then Raised else Returned(p.row, true)))
    case Release(w) =>
      if !p.Releasing? then (owner, db, p) else (None, db, Done(p.result))
    case Die(w) =>
      (if owner == Some(w) then None else owner, db, Gone)
  }

  function Step(s: System, a: Action): (t: System)
    ensures |t.workers| == |s.workers|
  {
    if a.w >= |s.workers| then s
    else
      var (owner, db, p) := Effect(s.owner, s.db, s.workers[a.w], a);
      System(owner, db, s.workers[a.w := p])
  }

  function Run(s: System, actions: seq<Action>): (t: System)
    ensures |t.workers| == |s.workers|
    decreases |actions|
  {
    if actions == [] then s else Run(Step(s, actions[0]), actions[1..])
  }

  ghost predicate UniqueKeys(rows: seq<RunRow>) {
    forall i, j | 0 <= i < j < |rows| :: rows[i].key != rows[j].key
  }

  /** Exactly the owner is between acquire and release; no key has two rows. */
  ghost predicate Invariant(s: System) {
    && UniqueKeys(s.db.rows) && Reachable(s.db)
    && (forall w | 0 <= w < |s.workers| :: InCritical(s.workers[w]) <==> s.owner == Some(w))
    && (s.owner.Some? ==> s.owner.value < |s.workers|)
    && (forall w | 0 <= w < |s.workers| :: Sane(s.workers[w]))
  }

  /** What a transaction may do to the rows: set the run of its key, when that is not final. */
  ghost predicate OnlyRunChanges(rows: seq<RunRow>, key: string, after: seq<RunRow>) {
    && UniqueKeys(after)
    && (forall i | 0 <= i < |rows| && Final(rows[i]) :: i < |after| && after[i] == rows[i])
    && (forall i | 0 <= i < |rows| && rows[i].key != key :: i < |after| && after[i] == rows[i])
  }

  lemma CreatedFacts(rows: seq<RunRow>, key: string)
    requires UniqueKeys(rows)
    ensures var all := CreateOrGet(rows, key);
      && UniqueKeys(all) && rows <= all && FindRun(all, key).Some?
      && forall k | 0 <= k < |all| :: all[k].key == key ==> k == FindRun(all, key).value
  {
    var all := CreateOrGet(rows, key);
    if FindRun(rows, key).None? {
      assert all[|rows|].key == key;
    }
    var i := FindRun(all, key).value;
    assert forall k | 0 <= k < i :: all[k].key != all[i].key;
    assert forall k | i < k < |all| :: all[i].key != all[k].key;
  }

  lemma SetRunFacts(rows: seq<RunRow>, key: string, all: seq<RunRow>, i: nat, row: RunRow)
    requires UniqueKeys(all) && rows <= all && i < |all| && all[i].key == key && row.key == key
    requires !Final(all[i]) || row == all[i]
    ensures OnlyRunChanges(rows, key, all[i := row]) && row in all[i := row]
  {
    hide Final;
    assert all[i := row][i] == row;
  }

  lemma TransactionFacts(db: Tables, key: string, c: Collection)
    requires c.Collected? && UniqueKeys(db.rows)
    ensures match Transaction(db, key, c)
      case None => true
      case Some((after, row, _)) =>
        && OnlyRunChanges(db.rows, key, after.rows) && row in after.rows && row.key == key
        && (after.(rows := db.rows) == db || Some(after.(rows := db.rows)) == Stored(db, c))
        && ((exists prior | prior in db.rows :: prior.key == key && Final(prior)) ==> after.(rows := db.rows) == db)
  {
    CreatedFacts(db.rows, key);
    var all := CreateOrGet(db.rows, key);
    var i := FindRun(all, key).value;
    hide CreateOrGet, Findings, Consistent, UniqueKeys, OnlyRunChanges, Final, FindRun, Stored;
    match Transaction(db, key, c)
    case None =>
    case Some((after, row, _)) =>
      assert after.rows == all[i := row];
      SetRunFacts(db.rows, key, all, i, row);
      if prior :| prior in db.rows && prior.key == key && Final(prior) {
        var k :| 0 <= k < |db.rows| && db.rows[k] == prior;
        assert all[k] == prior;
      }
  }

  // --- the tables are those of some history of writes ---

  /** Sources and documents as some sequence of upserts, outcomes and documents leaves them. */
  ghost predicate Reachable(db: Tables) {
    && (exists steps :: db.sources == P.RunSteps(db.hashOf, steps))
    && (exists docs :: db.documents == P.PersistAll(docs))
  }

  function Upserts(configs: seq<P.Config>): seq<P.SourceStep> {
    seq(|configs|, k requires 0 <= k < |configs| => P.Upsert(configs[k]))
  }

  function Finishes(results: seq<P.SourceResult>): seq<P.SourceStep> {
    seq(|results|, k requires 0 <= k < |results| => P.Finish(results[k]))
  }

  function DocumentsOf(delivered: seq<Delivered>): seq<P.Document> {
    seq(|delivered|, k requires 0 <= k < |delivered| => delivered[k].document)
  }

  lemma {:induction false} UpsertsContinue(hashOf: P.Config -> string, steps: seq<P.SourceStep>, configs: seq<P.Config>)
    ensures Upserted(P.RunSteps(hashOf, steps), hashOf, configs) == P.RunSteps(hashOf, steps + Upserts(configs))
  {
    hide P.Upserted;
    var all := steps + Upserts(configs);
    if configs == [] {
      assert all == steps;
    } else {
      var front := configs[..|configs| - 1];
      UpsertsContinue(hashOf, steps, front);
      assert all[..|all| - 1] == steps + Upserts(front) && all[|all| - 1] == P.Upsert(configs[|configs| - 1]);
    }
  }

  lemma {:induction false} ResultsContinue(
      hashOf: P.Config -> string, steps: seq<P.SourceStep>, results: seq<P.SourceResult>)
    requires Finished(P.RunSteps(hashOf, steps), results).Some?
    ensures Finished(P.RunSteps(hashOf, steps), results) == Some(P.RunSteps(hashOf, steps + Finishes(results)))
  {
    hide P.Upserted, P.Freshened;
    var all := steps + Finishes(results);
    if results == [] {
      assert all == steps;
    } else {
      var front := results[..|results| - 1];
      ResultsContinue(hashOf, steps, front);
      assert all[..|all| - 1] == steps + Finishes(front) && all[|all| - 1] == P.Finish(results[|results| - 1]);
    }
  }

  lemma {:induction false} DocumentsContinue(docs: seq<P.Document>, documents: seq<Delivered>)
    requires Persisted(P.PersistAll(docs), documents).Some?
    ensures Persisted(P.PersistAll(docs), documents) == Some(P.PersistAll(docs + DocumentsOf(documents)))
  {
    hide P.DocumentPersisted;
    var all := docs + DocumentsOf(documents);
    if documents == [] {
      assert all == docs;
    } else {
      var front := documents[..|documents| - 1];
      DocumentsContinue(docs, front);
      assert all[..|all| - 1] == docs + DocumentsOf(front) && all[|all| - 1] == documents[|documents| - 1].document;
    }
  }

  /** The tables after exactly these writes. */
  ghost predicate History(db: Tables, steps: seq<P.SourceStep>, docs: seq<P.Document>) {
    db.sources == P.RunSteps(db.hashOf, steps) && db.documents == P.PersistAll(docs)
  }

  /** What is stored continues the history with the collection's sources, outcomes and documents, in
      the order they were delivered. */
  lemma StoredContinues(db: Tables, c: Collection, steps: seq<P.SourceStep>, docs: seq<P.Document>)
    requires c.Collected? && Stored(db, c).Some? && History(db, steps, docs)
    ensures History(
        Stored(db, c).value, steps + Upserts(c.sources) + Finishes(c.results), docs + DocumentsOf(c.documents))
  {
    hide P.RunSteps, P.PersistAll, Upserted, Finished, Persisted;
    UpsertsContinue(db.hashOf, steps, c.sources);
    ResultsContinue(db.hashOf, steps + Upserts(c.sources), c.results);
    DocumentsContinue(docs, c.documents);
  }

  lemma StoredIsReachable(db: Tables, c: Collection)
    requires c.Collected? && Reachable(db) && Stored(db, c).Some?
    ensures Reachable(Stored(db, c).value)
  {
    var steps :| db.sources == P.RunSteps(db.hashOf, steps);
    var docs :| db.documents == P.PersistAll(docs);
    StoredContinues(db, c, steps, docs);
    hide P.RunSteps, P.PersistAll, Stored;
  }

  lemma PersistKeeps(db: Tables, key: string, c: Collection)
    requires c.Collected? && UniqueKeys(db.rows) && Reachable(db)
    ensures match Transaction(db, key, c)
      case None => true
      case Some((after, _, _)) => OnlyRunChanges(db.rows, key, after.rows) && Reachable(after)
  {
    TransactionFacts(db, key, c);
    if Stored(db, c).Some? {
      StoredIsReachable(db, c);
    }
    hide Transaction, Stored, OnlyRunChanges, P.RunSteps, P.PersistAll;
    match Transaction(db, key, c)
    case None =>
    case Some((after, _, _)) =>
      assert Reachable(after.(rows := db.rows));
  }

  // --- what one attempt commits ---

  /** Every finding delivered, as the position of its document and its place there. */
  ghost function AllFindings(documents: seq<Delivered>): set<(nat, nat)> {
    set k: nat, f: nat | k < |documents| && documents[k].findings.Some? && f < documents[k].findings.value :: (k, f)
  }

  ghost function PlacesIn(k: nat, n: nat): set<(nat, nat)> {
    set f: nat | f < n :: (k, f)
  }

  lemma {:induction false} PlacesCounted(k: nat, n: nat)
    ensures |PlacesIn(k, n)| == n
    decreases n
  {
    if n == 0 {
      assert PlacesIn(k, n) == {};
    } else {
      PlacesCounted(k, n - 1);
      assert PlacesIn(k, n) == PlacesIn(k, n - 1) + {(k, n - 1)};
    }
  }

  lemma FindingsSplit(documents: seq<Delivered>)
    requires documents != [] && documents[|documents| - 1].findings.Some?
    ensures var n := |documents| - 1; var places := PlacesIn(n, documents[n].findings.value);
      AllFindings(documents) == AllFindings(documents[..n]) + places && AllFindings(documents[..n]) !! places
  {
    var n := |documents| - 1;
    forall k: nat, f: nat | k < n ensures (k, f) in AllFindings(documents) <==> (k, f) in AllFindings(documents[..n]) {
    }
  }

  /** The number to store is that of all findings delivered; none when some extraction raised. */
  lemma {:induction false} FindingsCounted(documents: seq<Delivered>)
    ensures Findings(documents).Some? <==> forall k | 0 <= k < |documents| :: documents[k].findings.Some?
    ensures Findings(documents).Some? ==> Findings(documents).value == |AllFindings(documents)|
  {
    if documents == [] {
      assert AllFindings(documents) == {};
    } else {
      var n := |documents| - 1;
      var front, last := documents[..n], documents[n];
      FindingsCounted(front);
      assert forall k | 0 <= k < n :: front[k] == documents[k];
      if last.findings.Some? {
        FindingsSplit(documents);
        PlacesCounted(n, last.findings.value);
        hide AllFindings, PlacesIn;
      }
    }
  }

  ghost predicate Delivers(configs: seq<P.Config>, s: string) {
    exists k | 0 <= k < |configs| :: configs[k].sourceId == s
  }

  lemma {:induction false} UpsertedSources(
      t: P.SourceTables, hashOf: P.Config -> string, configs: seq<P.Config>, s: string)
    ensures s in Upserted(t, hashOf, configs).sources <==> s in t.sources || Delivers(configs, s)
  {
    if configs != [] {
      hide P.ConfigurationVersion, P.FindHistory;
      var n := |configs| - 1;
      UpsertedSources(t, hashOf, configs[..n], s);
      assert forall k | 0 <= k < n :: configs[..n][k] == configs[k];
    }
  }

  lemma {:induction false} FinishedKnown(t: P.SourceTables, results: seq<P.SourceResult>)
    ensures Finished(t, results).Some? <==> forall k | 0 <= k < |results| :: results[k].sourceId in t.sources
    ensures Finished(t, results).Some? ==> Finished(t, results).value.sources.Keys == t.sources.Keys
  {
    if results != [] {
      hide P.Freshened;
      var n := |results| - 1;
      FinishedKnown(t, results[..n]);
      assert forall k | 0 <= k < n :: results[..n][k] == results[k];
    }
  }

  /** Every result names a source, stored before or delivered with it. */
  ghost predicate NamesSources(known: set<string>, c: Collection)
    requires c.Collected?
  {
    forall k | 0 <= k < |c.results| :: c.results[k].sourceId in known || Delivers(c.sources, c.results[k].sourceId)
  }

  /** No document is refused after those before it. */
  ghost predicate NoneRefused(table: seq<P.DocumentRow>, docs: seq<P.Document>) {
    forall k | 0 <= k < |docs| :: P.DocumentPersisted(P.PersistFrom(table, docs[..k]), docs[k]).1.Ok?
  }

  lemma NoneRefusedSnoc(table: seq<P.DocumentRow>, docs: seq<P.Document>)
    requires docs != []
    ensures var n := |docs| - 1;
      NoneRefused(table, docs) <==>
        NoneRefused(table, docs[..n]) && P.DocumentPersisted(P.PersistFrom(table, docs[..n]), docs[n]).1.Ok?
  {
    hide P.DocumentPersisted, P.PersistFrom;
    var n := |docs| - 1;
    assert forall k | 0 <= k < n :: docs[..n][..k] == docs[..k] && docs[..n][k] == docs[k];
    if NoneRefused(table, docs[..n]) {
      forall k | 0 <= k < n ensures P.DocumentPersisted(P.PersistFrom(table, docs[..k]), docs[k]).1.Ok? {
        assert P.DocumentPersisted(P.PersistFrom(table, docs[..n][..k]), docs[..n][k]).1.Ok?;
      }
    }
  }

  lemma {:induction false} PersistedExactly(table: seq<P.DocumentRow>, documents: seq<Delivered>)
    ensures Persisted(table, documents).Some? <==> NoneRefused(table, DocumentsOf(documents))
    ensures Persisted(table, documents).Some? ==>
              Persisted(table, documents).value == P.PersistFrom(table, DocumentsOf(documents))
  {
    hide P.DocumentPersisted, NoneRefused;
    var docs := DocumentsOf(documents);
    if documents == [] {
      assert NoneRefused(table, docs) by { NothingRefused(table); }
    } else {
      var n := |documents| - 1;
      PersistedExactly(table, documents[..n]);
      assert DocumentsOf(documents[..n]) == docs[..n];
      NoneRefusedSnoc(table, docs);
    }
  }

  lemma NothingRefused(table: seq<P.DocumentRow>)
    ensures NoneRefused(table, [])
  {
  }

  /** When nothing in the attempt raises. */
  ghost predicate Commits(db: Tables, c: Collection)
    requires c.Collected?
  {
    && NamesSources(db.sources.sources.Keys, c) && NoneRefused(db.documents, DocumentsOf(c.documents))
    && (c.manifest.status in {Completed, Failed, Skipped} <==> c.manifest.completedAt.Some?)
    && forall k | 0 <= k < |c.documents| :: c.documents[k].findings.Some?
  }

  lemma StoredExactly(db: Tables, c: Collection)
    requires c.Collected?
    ensures Stored(db, c).Some?
       <==> NamesSources(db.sources.sources.Keys, c) && NoneRefused(db.documents, DocumentsOf(c.documents))
  {
    forall k | 0 <= k < |c.results|
      ensures c.results[k].sourceId in Upserted(db.sources, db.hashOf, c.sources).sources
        <==> c.results[k].sourceId in db.sources.sources || Delivers(c.sources, c.results[k].sourceId)
    {
      UpsertedSources(db.sources, db.hashOf, c.sources, c.results[k].sourceId);
    }
    FinishedKnown(Upserted(db.sources, db.hashOf, c.sources), c.results);
    PersistedExactly(db.documents, c.documents);
    hide Upserted, Finished, Persisted, NoneRefused;
  }

  /** No final run has this key. */
  ghost predicate Open(rows: seq<RunRow>, key: string) {
    forall k | 0 <= k < |rows| && rows[k].key == key :: !Final(rows[k])
  }

  /** The run of the collection: its outcome, and all its findings; without documents the count stays. */
  ghost predicate Records(rows: seq<RunRow>, key: string, c: Collection, row: RunRow)
    requires c.Collected?
  {
    && row.key == key && row.status == c.manifest.status && row.completedAt == c.manifest.completedAt
    && (c.documents != [] ==> row.newFindings == |AllFindings(c.documents)|)
    && (c.documents == [] ==>
          forall k | 0 <= k < |rows| && rows[k].key == key :: rows[k].newFindings == row.newFindings)
    && (c.documents == [] && (forall k | 0 <= k < |rows| :: rows[k].key != key) ==> row.newFindings == 0)
  }

  lemma RecordsRun(rows: seq<RunRow>, key: string, c: Collection, row: RunRow)
    requires c.Collected? && UniqueKeys(rows)
    requires var all := CreateOrGet(rows, key);
      row == all[FindRun(all, key).value].(
        status := c.manifest.status, completedAt := c.manifest.completedAt, newFindings := row.newFindings)
    requires c.documents != [] ==> row.newFindings == |AllFindings(c.documents)|
    requires c.documents == [] ==>
      var all := CreateOrGet(rows, key); row.newFindings == all[FindRun(all, key).value].newFindings
    ensures Records(rows, key, c, row)
  {
    CreatedFacts(rows, key);
    hide UniqueKeys, FindRun;
  }

  lemma OpenIsNotFinal(rows: seq<RunRow>, key: string)
    requires UniqueKeys(rows) && Open(rows, key)
    ensures var all := CreateOrGet(rows, key); !Final(all[FindRun(all, key).value])
  {
    CreatedFacts(rows, key);
  }

  /** An attempt on an open run commits exactly when every result names a source, no document is
      refused, the outcome is dated exactly when it is terminal, and no extraction raises.  It then
      stores the outcome, time and number of findings of the collection on its run, and continues the
      tables with all that was delivered. */
  lemma CommitRecordsCollection(
      db: Tables, key: string, c: Collection, steps: seq<P.SourceStep>, docs: seq<P.Document>)
    requires c.Collected? && UniqueKeys(db.rows) && Open(db.rows, key) && History(db, steps, docs)
    ensures Transaction(db, key, c).Some? <==> Commits(db, c)
    ensures match Transaction(db, key, c)
      case None => true
      case Some((after, row, extracted)) =>
        && Records(db.rows, key, c, row) && row in after.rows && OnlyRunChanges(db.rows, key, after.rows)
        && (extracted <==> c.documents != [])
        && History(after, steps + Upserts(c.sources) + Finishes(c.results), docs + DocumentsOf(c.documents))
  {
    StoredExactly(db, c);
    FindingsCounted(c.documents);
    OpenIsNotFinal(db.rows, key);
    TransactionFacts(db, key, c);
    if Stored(db, c).Some? {
      StoredContinues(db, c, steps, docs);
    }
    hide UniqueKeys, Open, Stored, Findings, CreateOrGet, FindRun, OnlyRunChanges, Final, NamesSources, NoneRefused,
      AllFindings, P.RunSteps, P.PersistAll, Records;
    match Transaction(db, key, c)
    case None =>
    case Some((after, row, _)) =>
      RecordsRun(db.rows, key, c, row);
  }

  /** After a committed extraction the run is final exactly when it completed with some finding.  If
      so no later attempt changes anything; otherwise the next one that commits replaces its outcome. */
  lemma OnlyFindingsMakeFinal(db: Tables, key: string, c: Collection, next: Collection)
    requires c.Collected? && c.documents != [] && next.Collected? && UniqueKeys(db.rows) && Open(db.rows, key)
    requires Reachable(db) && Transaction(db, key, c).Some?
    ensures var (after, row, _) := Transaction(db, key, c).value;
      && (Final(row) <==> c.manifest.status == Completed && AllFindings(c.documents) != {})
      && (Final(row) ==> Transaction(after, key, next) == Some((after, row, false)))
      && (!Final(row) ==> match Transaction(after, key, next)
        case None => !Commits(after, next)
        case Some((_, replaced, _)) => Records(after.rows, key, next, replaced))
  {
    var steps :| db.sources == P.RunSteps(db.hashOf, steps);
    var docs :| db.documents == P.PersistAll(docs);
    CommitRecordsCollection(db, key, c, steps, docs);
    var (after, row, _) := Transaction(db, key, c).value;
    assert Final(row) <==> c.manifest.status == Completed && AllFindings(c.documents) != {};
    RunOfKey(after.rows, key, row);
    if Final(row) {
      FinalIsKept(after, key, next, row);
    } else {
      CommitRecordsCollection(
        after, key, next, steps + Upserts(c.sources) + Finishes(c.results), docs + DocumentsOf(c.documents));
    }
  }

  lemma RunOfKey(rows: seq<RunRow>, key: string, row: RunRow)
    requires UniqueKeys(rows) && row in rows && row.key == key
    ensures forall k | 0 <= k < |rows| && rows[k].key == key :: rows[k] == row
    ensures Open(rows, key) <==> !Final(row)
  {
    var j :| 0 <= j < |rows| && rows[j] == row;
    assert forall k | 0 <= k < j :: rows[k].key != rows[j].key;
    assert forall k | j < k < |rows| :: rows[j].key != rows[k].key;
  }

  lemma FinalIsKept(db: Tables, key: string, c: Collection, row: RunRow)
    requires c.Collected? && UniqueKeys(db.rows) && row in db.rows && row.key == key && Final(row)
    ensures Transaction(db, key, c) == Some((db, row, false))
  {
    RunOfKey(db.rows, key, row);
    hide UniqueKeys, Stored, Findings;
  }

  ghost predicate FinalsStay(rows: seq<RunRow>, after: seq<RunRow>) {
    forall i | 0 <= i < |rows| && Final(rows[i]) :: i < |after| && after[i] == rows[i]
  }

  predicate Sane(p: Phase) {
    p.Persisting? ==> p.collection.Collected?
  }

  lemma EffectKeepsTables(owner: Option<nat>, db: Tables, p: Phase, a: Action)
    requires UniqueKeys(db.rows) && Reachable(db) && Sane(p)
    ensures var (_, db', p') := Effect(owner, db, p, a);
      UniqueKeys(db'.rows) && Reachable(db') && Sane(p') && FinalsStay(db.rows, db'.rows)
  {
    if a.Persist? && p.Persisting? {
      PersistKeeps(db, p.key, p.collection);
    }
    hide Transaction, Reachable, Final;
  }

  /** A worker takes the lock only when it is free and gives it up only when it has it. */
  lemma EffectKeepsLock(owner: Option<nat>, db: Tables, p: Phase, a: Action)
    requires InCritical(p) <==> owner == Some(a.w)
    ensures var (owner', _, p') := Effect(owner, db, p, a);
      && (InCritical(p') <==> owner' == Some(a.w))
      && (owner' == owner || (owner == None && owner' == Some(a.w)) || (owner == Some(a.w) && owner' == None))
  {
    hide Transaction;
  }

  lemma StepKeepsInvariant(s: System, a: Action)
    requires Invariant(s)
    ensures Invariant(Step(s, a)) && FinalsStay(s.db.rows, Step(s, a).db.rows)
  {
    if a.w < |s.workers| {
      EffectKeepsTables(s.owner, s.db, s.workers[a.w], a);
      EffectKeepsLock(s.owner, s.db, s.workers[a.w], a);
    }
    hide Effect, Reachable, Final, UniqueKeys, InCritical;
  }

  lemma {:induction false} RunKeeps(s: System, actions: seq<Action>, row: RunRow)
    requires Invariant(s)
    ensures Invariant(Run(s, actions))
    ensures Final(row) && row in s.db.rows ==> row in Run(s, actions).db.rows
    decreases |actions|
  {
    if actions != [] {
      StepKeepsInvariant(s, actions[0]);
      hide Step, Invariant;
      if Final(row) && row in s.db.rows {
        var i :| 0 <= i < |s.db.rows| && s.db.rows[i] == row;
        assert Step(s, actions[0]).db.rows[i] == row;
      }
      RunKeeps(Step(s, actions[0]), actions[1..], row);
    }
  }

  ghost predicate Initial(s: System) {
    && s.owner == None && s.db == Empty(s.db.hashOf)
    && forall w | 0 <= w < |s.workers| :: s.workers[w] == Idle
  }

  lemma InitialHolds(s: System)
    requires Initial(s)
    ensures Invariant(s)
  {
    assert P.RunSteps(s.db.hashOf, []) == s.db.sources && P.PersistAll([]) == s.db.documents;
  }

  /** In every interleaving the tables stay in order: documents form gap-free chains of distinct
      content whose links go back, and each source's history numbers distinct configurations from
      one. */
  lemma TablesStayInOrder(s: System, actions: seq<Action>, source: string) returns (configs: seq<P.Config>)
    requires Initial(s) && P.Injective(s.db.hashOf)
    ensures var db := Run(s, actions).db;
      && VersionChains.Chained(db.documents) && P.DistinctContent(db.documents) && VersionChains.LinksBack(db.documents)
      && db.hashOf == s.db.hashOf && P.Numbered(P.HistoryOf(db.sources.history, source), db.hashOf, source, configs)
      && forall j, k | 0 <= j < k < |configs| :: configs[j] != configs[k]
  {
    InitialHolds(s);
    RunKeeps(s, actions, RunRow("", Scheduled, None, 0));
    HashStays(s, actions);
    var db := Run(s, actions).db;
    var steps :| db.sources == P.RunSteps(db.hashOf, steps);
    var docs :| db.documents == P.PersistAll(docs);
    hide Run, Invariant, P.RunSteps, P.PersistAll, P.UpsertsOf, P.UpsertAll, P.Injective, P.Numbered;
    P.DocumentsFormChains(docs);
    P.LoopsAreStored(docs);
    P.StepsKeepConfigurations(db.hashOf, steps);
    P.SourceHistoryIsFirstSeen(db.hashOf, P.UpsertsOf(steps), source);
    configs := P.FirstSeen(P.UpsertsOf(steps), source);
  }

  lemma EffectKeepsHash(owner: Option<nat>, db: Tables, p: Phase, a: Action)
    ensures Effect(owner, db, p, a).1.hashOf == db.hashOf
  {
    hide Findings, Upserted, Finished, Persisted, Consistent, Final, CreateOrGet;
  }

  lemma {:induction false} HashStays(s: System, actions: seq<Action>)
    ensures Run(s, actions).db.hashOf == s.db.hashOf
    decreases |actions|
  {
    if actions != [] {
      if actions[0].w < |s.workers| {
        EffectKeepsHash(s.owner, s.db, s.workers[actions[0].w], actions[0]);
      }
      hide Effect;
      HashStays(Step(s, actions[0]), actions[1..]);
    }
  }

  /** In every interleaving, deaths included: at most one worker is between acquire and release,
      it is the lock's owner, a finished or dead worker never owns the lock, and no idempotency
      key has two run rows. */
  lemma OneRunAtATime(s: System, actions: seq<Action>, v: nat, w: nat)
    requires Initial(s) && v < |Run(s, actions).workers| && w < |Run(s, actions).workers|
    ensures var t := Run(s, actions);
      && (InCritical(t.workers[v]) && InCritical(t.workers[w]) ==> v == w)
      && (InCritical(t.workers[v]) <==> t.owner == Some(v))
      && (t.workers[v].Done? || t.workers[v].Gone? ==> t.owner != Some(v))
      && UniqueKeys(t.db.rows)
  {
    InitialHolds(s);
    RunKeeps(s, actions, RunRow("", Scheduled, None, 0));
  }

  /** A completed run with findings never changes again. */
  lemma FinalRunsStay(s: System, actions: seq<Action>, more: seq<Action>, row: RunRow)
    requires Initial(s) && row in Run(s, actions).db.rows && Final(row)
    ensures row in Run(Run(s, actions), more).db.rows
    ensures forall other | other in Run(Run(s, actions), more).db.rows && other.key == row.key :: other == row
  {
    InitialHolds(s);
    RunKeeps(s, actions, row);
    RunKeeps(Run(s, actions), more, row);
    var t := Run(Run(s, actions), more);
    hide Run;
    var i :| 0 <= i < |t.db.rows| && t.db.rows[i] == row;
    forall other | other in t.db.rows && other.key == row.key ensures other == row {
      var j :| 0 <= j < |t.db.rows| && t.db.rows[j] == other;
    }
  }

  /** An idle worker takes the lock exactly when it is free; otherwise it is done at once.  Either way
      no table and no other worker changes. */
  lemma LockTakenExactly(s: System, w: nat, key: string)
    requires w < |s.workers| && s.workers[w] == Idle
    ensures var t := Step(s, TryLock(w, key));
      && t.db == s.db && t.workers == s.workers[w := t.workers[w]]
      && (s.owner == None ==> t.owner == Some(w) && t.workers[w] == Holding(key))
      && (s.owner != None ==> t.owner == s.owner && t.workers[w] == Done(NotAcquired))
  {
    hide Transaction;
  }

  /** The remaining steps of a worker that holds the lock, whatever each of them does. */
  function Remaining(w: nat, c: Collection, raises: bool): seq<Action> {
    [Collect(w, c), Persist(w), Enrich(w, raises), Release(w)]
  }

  lemma RunFour(s: System, a: Action, b: Action, c: Action, d: Action)
    ensures Run(s, [a, b, c, d]) == Step(Step(Step(Step(s, a), b), c), d)
  {
    var r3, r2, r1 := [a, b, c, d][1..], [b, c, d][1..], [c, d][1..];
    assert r3 == [b, c, d] && r2 == [c, d] && r1 == [d] && [d][1..] == [];
    var t := Step(Step(Step(s, a), b), c);
    assert Run(t, [d]) == Run(Step(t, d), [d][1..]) == Step(t, d);
    assert Run(Step(Step(s, a), b), [c, d]) == Run(t, [d]);
    assert Run(Step(s, a), [b, c, d]) == Run(Step(Step(s, a), b), [c, d]);
  }

  lemma HolderEffects(db: Tables, w: nat, key: string, c: Collection, raises: bool)
    ensures var (o1, r1, p1) := Effect(Some(w), db, Holding(key), Collect(w, c));
            var (o2, r2, p2) := Effect(o1, r1, p1, Persist(w));
            var (o3, r3, p3) := Effect(o2, r2, p2, Enrich(w, raises));
            Effect(o3, r3, p3, Release(w)) == (None, Attempt(db, key, c, raises).0, Done(Attempt(db, key, c, raises).1))
  {
    hide Transaction;
  }

  /** The steps of one worker in a schedule. */
  function Own(w: nat, actions: seq<Action>): seq<Action> {
    if actions == [] then []
    else (if actions[0].w == w then [actions[0]] else []) + Own(w, actions[1..])
  }

  predicate Keeps(a: Action) {
    a.Collect? || a.Persist? || a.Enrich?
  }

  /** Two systems look the same to worker `w`. */
  ghost predicate SameFor(s: System, t: System, w: nat) {
    && w < |s.workers| && w < |t.workers|
    && s.owner == t.owner && s.db == t.db && s.workers[w] == t.workers[w]
  }

  /** While one worker owns the lock, a step of another changes nothing that the owner sees. */
  lemma OthersWait(s: System, w: nat, a: Action)
    requires Invariant(s) && w < |s.workers| && s.owner == Some(w) && a.w != w
    ensures SameFor(s, Step(s, a), w)
  {
    if a.w < |s.workers| {
      assert !InCritical(s.workers[a.w]);
    }
    hide Transaction;
  }

  lemma OwnStepAlike(s: System, t: System, w: nat, a: Action)
    requires SameFor(s, t, w) && a.w == w && s.owner == Some(w)
    ensures SameFor(Step(s, a), Step(t, a), w)
    ensures Keeps(a) ==> Step(s, a).owner == Some(w)
  {
    hide Transaction;
  }

  /** A schedule of the owner's steps among steps of others shows it what its steps alone do. */
  lemma {:induction false} OwnerRunsAsAlone(s: System, t: System, w: nat, actions: seq<Action>)
    requires Invariant(s) && SameFor(s, t, w) && s.owner == Some(w) && actions != []
    requires actions[|actions| - 1].w == w
    requires forall n | 0 <= n < |actions| - 1 && actions[n].w == w :: Keeps(actions[n])
    ensures SameFor(Run(s, actions), Run(t, Own(w, actions)), w)
    decreases |actions|
  {
    var a, rest := actions[0], actions[1..];
    StepKeepsInvariant(s, a);
    if a.w != w {
      OthersWait(s, w, a);
      hide Step, Invariant;
      OwnerRunsAsAlone(Step(s, a), t, w, rest);
      assert Own(w, actions) == Own(w, rest);
    } else {
      OwnStepAlike(s, t, w, a);
      hide Step, Invariant;
      assert Own(w, actions) == [a] + Own(w, rest) && ([a] + Own(w, rest))[1..] == Own(w, rest);
      if rest != [] {
        OwnerRunsAsAlone(Step(s, a), Step(t, a), w, rest);
      }
    }
  }

  lemma {:induction false} DoneStays(s: System, w: nat, actions: seq<Action>)
    requires w < |s.workers| && Own(w, actions) == []
    ensures Run(s, actions).workers[w] == s.workers[w]
    decreases |actions|
  {
    if actions != [] {
      hide Effect;
      DoneStays(Step(s, actions[0]), w, actions[1..]);
    }
  }

  lemma {:induction false} OwnMembers(w: nat, actions: seq<Action>, n: nat)
    requires n < |actions| && actions[n].w == w
    ensures |Own(w, actions[..n])| < |Own(w, actions)| && Own(w, actions)[|Own(w, actions[..n])|] == actions[n]
    decreases |actions|
  {
    if n > 0 {
      assert actions[..n][1..] == actions[1..][..n - 1];
      OwnMembers(w, actions[1..], n - 1);
    }
  }

  lemma {:induction false} OwnSplits(w: nat, a: seq<Action>, b: seq<Action>)
    ensures Own(w, a + b) == Own(w, a) + Own(w, b)
    decreases |a|
  {
    if a == [] {
      assert a + b == b;
    } else {
      assert (a + b)[1..] == a[1..] + b && (a + b)[0] == a[0];
      OwnSplits(w, a[1..], b);
      var mine := if a[0].w == w then [a[0]] else [];
      assert (mine + Own(w, a[1..])) + Own(w, b) == mine + (Own(w, a[1..]) + Own(w, b));
    }
  }

  lemma OwnStarts(w: nat, actions: seq<Action>)
    requires actions != [] && actions[0].w == w
    ensures |Own(w, actions)| > 0
  {
  }

  /** Before the release come only the worker's first three steps. */
  lemma OwnBeforeRelease(w: nat, actions: seq<Action>, c: Collection, raises: bool, n: nat)
    requires Own(w, actions) == Remaining(w, c, raises) && n < |actions| - 1 && actions[n].w == w
    requires actions != [] && actions[|actions| - 1].w == w
    ensures Keeps(actions[n])
  {
    hide Own;
    var last := |actions| - 1;
    OwnMembers(w, actions, n);
    OwnMembers(w, actions, last);
    var more := actions[n..last];
    OwnSplits(w, actions[..n], more);
    assert actions[..last] == actions[..n] + more && more[0] == actions[n];
    OwnStarts(w, more);
  }

  lemma {:induction false} RunAppends(s: System, a: seq<Action>, b: seq<Action>)
    ensures Run(s, a + b) == Run(Run(s, a), b)
    decreases |a|
  {
    if a == [] {
      assert a + b == b;
    } else {
      assert (a + b)[1..] == a[1..] + b && (a + b)[0] == a[0];
      RunAppends(Step(s, a[0]), a[1..], b);
    }
  }

  /** Every exit path releases: whatever the other workers do in between, the owner's four steps,
      with any failure in any of them, leave the lock free at its release, the tables as one
      attempt does, and the worker done, also after any further steps of others. */
  lemma HolderAlwaysReleases(
      s: System, w: nat, key: string, c: Collection, raises: bool, actions: seq<Action>, more: seq<Action>)
    requires Invariant(s) && w < |s.workers| && s.workers[w] == Holding(key)
    requires Own(w, actions) == Remaining(w, c, raises) && actions[|actions| - 1].w == w && Own(w, more) == []
    ensures var t := Run(s, actions);
      && t.owner == None
      && (t.db, t.workers[w]) == (Attempt(s.db, key, c, raises).0, Done(Attempt(s.db, key, c, raises).1))
      && Run(s, actions + more).workers[w] == t.workers[w]
  {
    assert s.owner == Some(w) by {
      assert InCritical(s.workers[w]);
    }
    forall n | 0 <= n < |actions| - 1 && actions[n].w == w ensures Keeps(actions[n]) {
      OwnBeforeRelease(w, actions, c, raises, n);
    }
    hide Invariant, Effect, Attempt, Run, Own;
    OwnerRunsAsAlone(s, s, w, actions);
    RunFour(s, Collect(w, c), Persist(w), Enrich(w, raises), Release(w));
    HolderEffects(s.db, w, key, c, raises);
    RunAppends(s, actions, more);
    DoneStays(Run(s, actions), w, more);
  }

  // --- the enrichment stage ---

  datatype StageResult = StageResult(attempted: nat, enriched: nat, failures: nat, truncated: bool, failed: seq<string>)

  function Cap(maxCves: int): nat {
    if maxCves < 0 then 0 else maxCves
  }

  function FirstOf(cves: seq<string>, maxCves: int): seq<string> {
    if |cves| <= Cap(maxCves) then cves else cves[..Cap(maxCves)]
  }

  /** `_enrich_run_cves`: one bad CVE never stops the others, and the counts account for every
      CVE that was tried, no more than the cap. */
  method EnrichRunCves(enabled: bool, cves: seq<string>, maxCves: int, fails: string -> bool) returns (r: StageResult)
    ensures !enabled ==> r == StageResult(0, 0, 0, false, [])
    ensures enabled ==> r.attempted == |cves| && (r.truncated <==> |cves| > maxCves && cves != [])
    ensures enabled ==> r.failures == |r.failed|
    ensures enabled ==> r.enriched + r.failures == if !r.truncated then |cves| else if maxCves < 0 then 0 else maxCves
    ensures enabled && !r.truncated ==> r.failed == Sorting.Filter(fails, cves)
    ensures enabled && r.truncated ==> r.failed == Sorting.Filter(fails, cves[..if maxCves < 0 then 0 else maxCves])
  {
    if !enabled {
      return StageResult(0, 0, 0, false, []);
    }
    var selected := FirstOf(cves, maxCves);
    var enriched: nat := 0;
    var failures: seq<string> := [];
    for i := 0 to |selected|
      invariant failures == Sorting.Filter(fails, selected[..i])
      invariant enriched + |failures| == i
    {
      Sorting.FilterSnoc(fails, selected[..i], selected[i]);
      assert selected[..i + 1] == selected[..i] + [selected[i]];
      if fails(selected[i]) {
        failures := failures + [selected[i]];
      } else {
        enriched := enriched + 1;
      }
    }
    assert selected[..|selected|] == selected;
    r := StageResult(|cves|, enriched, |failures|, |cves| > Cap(maxCves), failures);
  }
}
