# Hermes CTI: verified models

A Dafny model of the deterministic core of Hermes CTI, with proofs of the properties that span its operations. One
module per part of the system:

- **Extraction** (`Rewriting`, `Refang`, `Selection`, `Extraction`, over the generic `GreedyChoice`): rewriting
  safe-display text while keeping a map back to the source, trimming matches, resolving overlaps, and assembling
  observations that quote their evidence.
- **Corpus reading** (`Cursor`, `Pagination`): the base64url cursor of section 5 of RFC 4648, and whole walks along
  `next_cursor`, over a table at rest and over one that changes between pages.
- **Persistence** (`VersionChains`, `Persistence`, `DailyRun`, `Vulnerability`): versioned tables as steps of one object,
  the locked daily run with any number of workers, and the canonical fields of a vulnerability.
- **Enrichment** (`Enrichment`, `Providers`, `Scoring`): the TTL cache with stale-if-error, the provider's cooldown and
  spacing, and the bounded priority score in real arithmetic.
- **Operations** (`RecoveryGates`, `Reconciler`): the lock-directory protocol of the recovery gate at the granularity of
  single file operations, and the profile reconciler on a map from paths to bytes.
- **Analysis and transport** (`Correlation` over `Listing`, `HttpFetch`, `Query`): order independence of correlation, the
  retry loop for every script of responses, and a query printer that can be read back.

`Sorting` is Python's `sorted`; `Wrappers` holds `Option` and `Result`, `Contracts` a shared status. Objects that the
source updates in place are classes whose methods are tied to a function of the old state; the properties are then lemmas
about that function, over every input, run or interleaving.

What the proofs say about the code where it differs from what its names or comments suggest:

- Refanging is not idempotent: `[[.]]` needs two passes (`Refang.RefangNotIdempotent`), as exactly the texts do in which
  a token stands directly inside a further pair of brackets (`Refang.RefangAgainExactly`).
- The bracket-balancing loops of `_trim_candidate` never run: closing brackets are punctuation and are already gone
  (`Extraction.BracketLoopsNeverRun`).
- The recovery cooldown can be broken when another gate's whole recovery falls between one gate's read and its `mkdir`
  (`RecoveryGates.InterleavingBreaksCooldown`, exactly when: `RecoveryGates.CooldownBrokenExactly`), and a crashed
  owner, or a lock directory that cannot be removed, blocks every later attempt
  (`RecoveryGates.OwnerlessLockBlocksForever`; nothing else does: `RecoveryGates.AttemptFollowsExactly`).
- A provider's cooldown is not kept for requests that overlap: one already past the check is sent anyway
  (`Providers.RequestsAreOvertaken`), and two rate-limited ones in flight together can make the bound fall
  (`Providers.RequestsSlipUnder`; exactly when: `Providers.CooldownKeptExactly`).
- An exception that `BaseProvider.enrich` does not name leaves a provider healthy although its request failed
  (`Providers.EscapeLooksHealthy`, exactly when: `Providers.HealthTellsHistory`). In the service it ends the whole call
  (`Enrichment.CallFailsExactly`), and no stale copy is served (`Enrichment.StaleServedExactlyWhen`).
- A document may name itself as the one it supersedes (`Persistence.DocumentMayNameItself`).
- The reconciler reports a wrong hash for an empty `.env` that it preserves beside a non-empty example
  (`Reconciler.EnvHashReported`), and `--replace` protects nothing (`Reconciler.ReplaceKeepsNothing`).
- The two exploitation fields of a vulnerability can disagree: without a KEV observation
  (`Vulnerability.ExploitationCanDisagree`), and with one whose payload names a state that contradicts its flag
  (`Vulnerability.ExplicitStateContradicts`); `Vulnerability.ExploitationAgreesExactly` lists all the ways.
- `fetch` reports fewer retries than it slept for when unzipping fails, and when a stream with a retryable status fails to
  close (`HttpFetch.RetriesReportedExactly`, `HttpFetch.RetrySleepsTwice`); one variable holds both request and response
  body, so a retry after a failed stream close sends the response back
  (`HttpFetch.ReadResponseIsResent`, exactly when: `HttpFetch.BodiesIdenticalExactly`).
- Query values are escaped but the index is printed as it stands. A KQL text still determines its table
  (`Query.KqlTextExactly`); an SPL text does not, because comparisons can move into the index (`Query.IndexIsPrintedRaw`),
  and in no other way (`Query.SplTextExactly`).

`dafny verify dfyconfig.toml` checks the whole project.

## Model

| member | source | states |
|---|---|---|
| Rewriting.BlocksTile | src/hermes_cti/extraction/pipeline.py:129-155 | for any token table the start and end maps have the text's length, neighbours share a block or abut, and the first and last blocks touch the ends of the source |
| Rewriting.BlocksOrdered | src/hermes_cti/extraction/pipeline.py:129-155 | two positions of the rewritten text share a block, or their blocks are disjoint and in order |
| Rewriting.BlocksExplained | src/hermes_cti/extraction/pipeline.py:129-155 | every produced character is a copied source character that starts no token, or part of the whole replacement of the token its block holds |
| Rewriting.RewriteFixpoint | src/hermes_cti/extraction/pipeline.py:129-160 | a text is unchanged if and only if no token starts anywhere in it |
| Refang.RefangText | src/hermes_cti/extraction/pipeline.py:129-155 | the cursor loop computes the block-by-block rewrite |
| Refang.MatchAt | src/hermes_cti/extraction/pipeline.py:134-147 | the inner loop finds the first pattern of the table that matches |
| Refang.PatternsDisjoint | src/hermes_cti/extraction/pipeline.py:58-77 | at any position at most one pattern of the table matches, so the order of the table does not matter |
| Refang.RefangTiles | src/hermes_cti/extraction/pipeline.py:129-155 | the two maps of the repository's own pattern table tile the source |
| Refang.SpanIsSourceSlice | src/hermes_cti/extraction/pipeline.py:41-44 | every non-empty span of the rewritten text maps to a valid non-empty slice of the source |
| Refang.SpanOrderPreserved | src/hermes_cti/extraction/pipeline.py:41-44 | mapping back keeps the order of both ends |
| Refang.DisjointSpansDisjointEvidence | src/hermes_cti/extraction/pipeline.py:41-44 | disjoint spans map to disjoint evidence if and only if no block straddles the gap |
| Refang.RefangExplained | src/hermes_cti/extraction/pipeline.py:129-155 | nothing is invented: every rewritten character is explained by its source block |
| Refang.RefangFixpoint | src/hermes_cti/extraction/pipeline.py:158-160 | refanging leaves a text alone exactly when it contains no safe-display token |
| Refang.RefangNotIdempotent | src/hermes_cti/extraction/pipeline.py:158-160 | some text changes again on a second pass |
| Refang.RefangAgainExactly | src/hermes_cti/extraction/pipeline.py:58-160 | for every text a second pass changes it again if and only if somewhere in the source a token other than a scheme stands directly inside a further pair of brackets, where `//` may follow a colon token and a dot token may stand in angle brackets |
| GreedyChoice.PicksAreGreedy | src/hermes_cti/extraction/pipeline.py:425-454 | the loop's picks are exactly the positions not barred and not clashing with an earlier pick |
| GreedyChoice.GreedyIsUnique | src/hermes_cti/extraction/pipeline.py:425-454 | that description has one solution |
| Selection.SelectCandidates | src/hermes_cti/extraction/pipeline.py:414-454 | the loop with its `seen` set computes the greedy choice over the sorted candidates |
| Selection.SelectionSound | src/hermes_cti/extraction/pipeline.py:414-454 | the candidates are ordered by start, precedence of type and length; the result is a subsequence with distinct (type, value) pairs, no shared text between types and nothing inside another URL or email; every dropped candidate has one of these reasons |
| Selection.SelectionUnique | src/hermes_cti/extraction/pipeline.py:414-454 | it is the only such choice in which every omission is justified by an earlier pick |
| Selection.SelectionPermutationInvariant | src/hermes_cti/extraction/pipeline.py:414-454 | with distinct (start, type, end) keys the result does not depend on the input order |
| Selection.SameTypeMayOverlap | src/hermes_cti/extraction/pipeline.py:446-454 | a Windows path and a POSIX path inside it are both selected although they overlap |
| Extraction.TrimCandidate | src/hermes_cti/extraction/pipeline.py:164-183 | the three loops compute the trimmed end |
| Extraction.BracketLoopsNeverRun | src/hermes_cti/extraction/pipeline.py:164-183 | the trimmed end is exactly the longest prefix whose last character is no sentence mark, quote or other punctuation outside `:/#`, so the bracket loops add nothing |
| Extraction.CollectCandidates | src/hermes_cti/extraction/pipeline.py:340-411 | the loop keeps exactly the matches that are not trimmed away and that normalize, with their evidence spans |
| Extraction.CandidatesBacked | src/hermes_cti/extraction/pipeline.py:278-287 | every selected candidate has a regex match whose text, trimmed to the longest prefix ending in a kept character, maps to the candidate's non-empty source offsets and normalizes to its value |
| Extraction.ExtractDocument | src/hermes_cti/extraction/pipeline.py:495-542 | input above the limit is refused, otherwise observations, suppressed observations and CVEs are those that the results below describe |
| Extraction.ExtractCves | src/hermes_cti/extraction/pipeline.py:457-492 | the loop with its `seen` set computes the list that CvesExact describes |
| Extraction.CvesExact | src/hermes_cti/extraction/pipeline.py:457-492 | the CVEs listed are exactly the names of usable matches, each once, with the source offsets, quoted text and surrounding window of its first usable match, trimmed, in order of place and name |
| Extraction.Partition | src/hermes_cti/extraction/pipeline.py:507-539 | observations and suppressed observations partition the selected candidates, each in order |
| Extraction.ObservationsAreEvidence | src/hermes_cti/extraction/pipeline.py:495-542 | every observation, kept or suppressed, quotes the non-empty source slice at its offsets with the window around them, carries the identifier of its value, and that value normalizes the rewritten text of the slice |
| Extraction.NothingLost | src/hermes_cti/extraction/pipeline.py:340-454 | every readable match is accounted for: an observation quotes it, or the choice dropped its candidate for one of its reasons |
| Extraction.ObservationIdsDistinct | src/hermes_cti/extraction/pipeline.py:495-542 | injective identifiers never collide inside one document |
| Cursor.EncodeRoundTrip | src/hermes_cti/analyst/corpus_repository.py:79-86 | base64url decoding inverts encoding for every byte string |
| Cursor.PaddingRestored | src/hermes_cti/analyst/corpus_repository.py:86-97 | re-padding by the negated length modulo 4 restores exactly the padding that was stripped |
| Cursor.EncodeSpellsBytes | src/hermes_cti/analyst/corpus_repository.py:79-86 | group by group the text is the number that its bytes are in base 256, written in base 64, a short group filled with zero bits and padded |
| Cursor.TextRoundTrip | src/hermes_cti/analyst/corpus_repository.py:79-112 | encode, strip, pad, decode is the identity on bytes |
| Cursor.CursorRoundTrip | src/hermes_cti/analyst/corpus_repository.py:79-112 | a cursor decodes to the row's key for its own resource, is rejected for another, and distinct rows have distinct cursors |
| Pagination.ListingFacts | src/hermes_cti/analyst/corpus_repository.py:115-124 | the keyset query lists exactly the qualifying rows, each once, in strict (updated_at desc, id) order |
| Pagination.PageFacts | src/hermes_cti/analyst/corpus_repository.py:304-326 | a page is the head of the listing, and exactly a longer listing hands on a cursor, at the page's last row |
| Pagination.StaticWalk | src/hermes_cti/analyst/corpus_repository.py:208-221 | on a table at rest the pages concatenate to the sorted filtered table in the least number of pages |
| Pagination.PagesNeededIsCeiling | src/hermes_cti/analyst/corpus_repository.py:304-326 | that number is max(1, ceil(n / limit)) |
| Pagination.WalkSees | src/hermes_cti/analyst/corpus_repository.py:115-166 | the same for a walk from any cursor over changing snapshots, each with the filter as it stands then |
| Pagination.WalkOverChangingTable | src/hermes_cti/analyst/corpus_repository.py:115-221 | while rows are inserted, deleted, touched, published or unpublished between pages no row comes twice, untouched rows that qualify throughout come exactly once in order, nothing inserted or touched appears, every row qualified when it was shown, and the walk ends within the pages needed by the rows of the first snapshot that ever qualify |
| Pagination.PostFilterKeepsEveryRow | src/hermes_cti/analyst/corpus_repository.py:907-948 | the second filter of `contradictions` never drops a fetched row, so items and cursor stay aligned |
| VersionChains.LatestIsLast | src/hermes_cti/db/repositories.py:486-533 | the row of highest version is the last of its chain |
| VersionChains.AppendKeepsChains | src/hermes_cti/db/repositories.py:486-533 | inserting the next row extends one chain by one and leaves the others alone |
| VersionChains.SupersedesPredecessor | src/hermes_cti/db/repositories.py:486-533 | inside a group a later row supersedes its predecessor and no other row |
| VersionChains.LinksEndExactly | src/hermes_cti/db/models.py:255-257 | where a link names an earlier row or its own, following the links from every row ends if and only if no row names itself |
| Persistence.Repository.UpsertSource | src/hermes_cti/db/repositories.py:247-318 | the new source row and history row as a function of the old tables |
| Persistence.SourceHistoryIsFirstSeen | src/hermes_cti/db/repositories.py:247-318 | from empty tables the history is exactly the distinct configurations upserted, each once, in first-seen order numbered 1..n, and the row shows the latest one under its number, also when it flips back |
| Persistence.Repository.UpdateSourceFreshness | src/hermes_cti/db/repositories.py:320-335 | an unknown source is an error that changes nothing; otherwise only its freshness moves |
| Persistence.StepsKeepConfigurations | src/hermes_cti/db/repositories.py:380-438 | interleaved outcomes leave configurations, versions and history exactly those of the upserts alone |
| Persistence.FreshnessFollowsOutcomes | src/hermes_cti/db/repositories.py:320-335 | in every interleaving with upserts the failure count is the failures since the last success, and the two times are the latest ones |
| Persistence.Repository.PersistSourceDocument | src/hermes_cti/db/repositories.py:486-533 | known content returns its row unchanged, new content appends the next version; a used identifier or a link to no row is refused and changes nothing |
| Persistence.DocumentStoredExactly | src/hermes_cti/db/repositories.py:486-533 | a document is stored or found exactly when its content is known, or its identifier is unused and its link, if it opens an identity with one, names a row or itself; new content becomes the next version of its identity |
| Persistence.DocumentsFormChains | src/hermes_cti/db/repositories.py:486-533 | over any run the rows of one (source, identity) have versions 1..n, each superseding its predecessor, with distinct content |
| Persistence.KnownContentIsStable | src/hermes_cti/db/repositories.py:486-533 | content once persisted returns the same row and changes nothing, after any further writes |
| Persistence.DocumentLinksEnd | src/hermes_cti/db/repositories.py:486-533 | over any run, following superseded documents from every row ends if and only if no document that opened an identity named itself |
| Persistence.DocumentMayNameItself | src/hermes_cti/db/models.py:255-257 | the foreign key lets such a document in, and its links never end |
| Persistence.Repository.PersistRiskAssessment | src/hermes_cti/db/repositories.py:628-701 | the appended assessment as a function of the old table |
| Persistence.AssessmentsFormChains | src/hermes_cti/db/repositories.py:628-701 | per entity the assessments of any run form one gap-free chain in call order whose first row supersedes nothing |
| Persistence.AssessmentLinksEnd | src/hermes_cti/db/repositories.py:638-682 | following superseded assessments from any row ends, the first of its entity included |
| Persistence.RiskNeverTaken | src/hermes_cti/db/repositories.py:638-682 | with injective identifiers no assessment is ever refused |
| DailyRun.Database.RunOnce | src/hermes_cti/db/pipeline.py:227-307 | whatever happens inside, the lock is as before; tables and result are those of one whole attempt |
| DailyRun.Database.PersistCollection | src/hermes_cti/db/repositories.py:380-438 | the transaction over run rows, sources and documents commits all of its effect or none of it |
| DailyRun.TransactionFacts | src/hermes_cti/db/repositories.py:337-438 | it keeps keys unique, leaves other runs and every completed run with findings as they were, returns the row it stored, and writes no source or document for a run that is final |
| DailyRun.FindingsCounted | src/hermes_cti/db/pipeline.py:263-287 | the number stored is that of all findings delivered, unless some extraction raises |
| DailyRun.CommitRecordsCollection | src/hermes_cti/db/repositories.py:380-438 | an attempt on an open run commits exactly when every result names a source, no document is refused, the outcome is dated exactly when terminal and no extraction raises; it then stores outcome, time and number of findings on its run and continues the tables with all that was delivered, in order |
| DailyRun.OnlyFindingsMakeFinal | src/hermes_cti/db/repositories.py:394-401 | after a committed extraction the run is final exactly when it completed with some finding; then later attempts change nothing, otherwise the next one that commits replaces its outcome |
| DailyRun.TablesStayInOrder | src/hermes_cti/db/repositories.py:380-438 | in every interleaving of workers the documents form gap-free chains of distinct content and each source's history numbers distinct configurations from one |
| DailyRun.StepKeepsInvariant | src/hermes_cti/db/pipeline.py:227-307 | every step of every worker keeps: exactly the owner is between acquire and release, one row per key |
| DailyRun.OneRunAtATime | src/hermes_cti/db/pipeline.py:227-307 | in every interleaving of any number of workers, deaths included, at most one holds the lock and no key has two rows |
| DailyRun.FinalRunsStay | src/hermes_cti/db/repositories.py:394-401 | a completed run with findings never changes again, in any continuation |
| DailyRun.LockTakenExactly | src/hermes_cti/db/pipeline.py:227-237 | an idle worker takes the lock exactly when it is free and otherwise is done at once; no table and no other worker changes |
| DailyRun.HolderAlwaysReleases | src/hermes_cti/db/pipeline.py:227-307 | whatever other workers do in between, the owner's steps leave the lock free at its release and the tables as one whole attempt does, with any failure in any of them |
| DailyRun.EnrichRunCves | src/hermes_cti/db/pipeline.py:120-195 | one bad CVE never stops the others; enriched plus failed is the number of CVEs up to the cap, the failures are exactly the failing ones in order, truncation is reported exactly |
| Vulnerability.SelectCanonicalFields | src/hermes_cti/enrichment/vulnerability.py:153-191 | filtering, sorting and taking the first per field computes the selection |
| Vulnerability.WinnerIsBest | src/hermes_cti/enrichment/vulnerability.py:153-191 | sorting and taking the first is one pass that keeps the first unbeaten offer |
| Vulnerability.WinnerFacts | src/hermes_cti/enrichment/vulnerability.py:143-191 | the winner is a usable non-empty offer of least provider rank and, within it, latest retrieval; there is none exactly when nothing is offered |
| Vulnerability.FieldAuthorities | src/hermes_cti/enrichment/vulnerability.py:28-57 | NVD decides the NVD fields, EPSS the EPSS fields and KEV the KEV fields whenever it offers a usable value, with its latest one; else the latest offer of any provider does |
| Vulnerability.WinnerPermutationInvariant | src/hermes_cti/enrichment/vulnerability.py:153-191 | with distinct (rank, time) keys the winner is the same for every arrival order |
| Vulnerability.LoserChangesNothing | src/hermes_cti/enrichment/vulnerability.py:153-191 | an observation without an offer, or worse than the winner, changes nothing wherever it arrives |
| Vulnerability.ExploitationAgreesExactly | src/hermes_cti/enrichment/vulnerability.py:103-114 | for any stored snapshots, explicit states included, the fields disagree in three ways only: the snapshot that decides the state carries a flag saying the opposite; it carries none and a true flag decides the other field; it carries none, states exploitation, and no true flag decides |
| Vulnerability.FlagsAgreeExactly | src/hermes_cti/enrichment/vulnerability.py:107-114 | where states come from flags alone the fields disagree if and only if a true flag stands at the place that decides one while the snapshot at the place that decides the other carries none |
| Vulnerability.UpsertsKeepStates | src/hermes_cti/db/vulnerability_repository.py:54-84 | every stored snapshot carries a state |
| Vulnerability.NormalizedReports | src/hermes_cti/enrichment/vulnerability.py:84-140 | which fields a response reports and with what value: its flag, its valid state or one derived from the flag, weakness identifiers by default none, all else as converted |
| Vulnerability.StoredAsDelivered | src/hermes_cti/db/vulnerability_repository.py:54-84 | after any deliveries each result has one observation, with provider, status and time of its last delivery, each field of the last delivery that reports it, and what it was where none does |
| Vulnerability.KevDecides | src/hermes_cti/enrichment/vulnerability.py:103-191 | when a usable KEV snapshot exists and every such snapshot has its state from a flag, the latest of them decides both fields, whatever other providers say |
| Vulnerability.ExploitationCanDisagree | src/hermes_cti/enrichment/vulnerability.py:107-114 | without a KEV snapshot they can disagree although all states come from flags: an older NVD flag beside a newer EPSS snapshot |
| Vulnerability.ExplicitStateContradicts | src/hermes_cti/enrichment/vulnerability.py:105-106 | one KEV snapshot with a negative flag and an explicit state makes them disagree |
| Vulnerability.VulnerabilityRepository.Resolve | src/hermes_cti/db/vulnerability_repository.py:36-52 | an entity's own row, else one with its CVE if any carries it, else a new row; nothing else changes |
| Vulnerability.VulnerabilityRepository.PersistEnrichment | src/hermes_cti/db/vulnerability_repository.py:28-122 | each selected field and its selection row name the winner among the stored observations; fields without an offer and all other rows stay; selection rows keep pointing at stored observations |
| Vulnerability.SelectedExactly | src/hermes_cti/db/vulnerability_repository.py:86-98 | a field is selected exactly when a stored observation of the vulnerability can supply it, with the value of the winner |
| Vulnerability.UpsertsKeepLinks | src/hermes_cti/db/vulnerability_repository.py:54-84 | upserting observations keeps identifiers unique and every selection row linked |
| Enrichment.EnrichmentCache.Get | src/hermes_cti/enrichment/cache.py:38-62 | fresh, stale or nothing, as a function of entry, time and window |
| Enrichment.LookupExactly | src/hermes_cti/enrichment/cache.py:38-62 | an entry is fresh without an expiry or before it, stale up to the end of its window, and otherwise not found; what is found is the entry marked as a hit |
| Enrichment.EnrichmentCache.Put | src/hermes_cti/enrichment/cache.py:64-69 | only successes are stored, under their own key |
| Enrichment.EnrichmentService.Enrich | src/hermes_cti/enrichment/service.py:42-85 | the provider loop serves exactly the providers of the query kind, one after the other, over the shared cache; a provider that raises ends it without a result |
| Enrichment.ConsultsExactly | src/hermes_cti/enrichment/service.py:53-61 | the providers asked are exactly those that serve the query kind, each once, in their order |
| Enrichment.CacheSound | src/hermes_cti/enrichment/cache.py:38-69 | after any history every entry is the last success stored under its own key, never a stale copy and never marked as a hit |
| Enrichment.ResponsesJustified | src/hermes_cti/enrichment/service.py:62-85 | a response not asked for is the last success, unexpired, marked as a hit; a stale one needs an answer without success inside the window and takes error, detail and retryability from that answer and all else from the last success; an exception of the provider passes; any other response is the provider's own |
| Enrichment.CallFailsExactly | src/hermes_cti/enrichment/service.py:60-85 | a call fails if and only if some provider raises that it asks, after all before it were served |
| Enrichment.EveryCallJustified | src/hermes_cti/enrichment/service.py:42-85 | after any sequence of `enrich` calls, failed ones included, every response of the next call is justified by everything consulted before it, in earlier calls and in its own |
| Enrichment.StaleServedExactlyWhen | src/hermes_cti/enrichment/service.py:62-85 | STALE is served if and only if the provider answered without success while the last success was inside the stale window; a provider that raises there ends the call instead |
| Enrichment.KeysSeparate | src/hermes_cti/enrichment/cache.py:35-36 | two queries share an entry exactly when provider and query fold alike |
| Enrichment.MergeResults | src/hermes_cti/enrichment/service.py:173-194 | a field has the value of the first available response that reports it; it conflicts exactly when two report different values, and all values are kept |
| Enrichment.ObservedExactly | src/hermes_cti/enrichment/service.py:173-194 | the values kept for a field are those of the available responses that report it, one each, in order |
| Providers.BaseProvider.Enrich | src/hermes_cti/enrichment/providers.py:178-278 | a disabled or cooling provider changes nothing, otherwise the whole new state and reply, also when an exception passes during the retrieval, at the headers, or at the bound |
| Providers.BaseProvider.Failure | src/hermes_cti/enrichment/providers.py:280-302 | a failure is counted, and only a rate limit sets the bound, unless the date overflows and the call raises |
| Providers.FailureTellsCaller | src/hermes_cti/enrichment/providers.py:240-302 | a failure is retryable exactly when it is a timeout, a rate limit, a retryable status or unavailability; a rate limit closes the provider for the seconds of Retry-After, 30 without one or at zero, or raises beyond the last date |
| Providers.RepliesExactly | src/hermes_cti/enrichment/providers.py:178-271 | a disabled or cooling provider is not asked and stays as it is; a delivery is a success when its headers can be read, and all else raises |
| Providers.HealthTellsHistory | src/hermes_cti/enrichment/providers.py:354-373 | after any history the status tells whether the last request succeeded, unless exactly that request raised and no classified failure is uncleared; the count is the sends without success since the last success if and only if each of them was a classified failure; every field is that of the latest call that can set it |
| Providers.EscapeLooksHealthy | src/hermes_cti/enrichment/providers.py:204-271 | one request that raises past the handlers leaves an enabled provider reporting success with no failure |
| Providers.HistoryFacts | src/hermes_cti/enrichment/providers.py:165-302 | over every history: nothing is sent before a recorded bound, bounds strictly increase, the failure count is the classified failures since the last delivery, sends are at least the interval apart |
| Providers.CooldownExact | src/hermes_cti/enrichment/providers.py:178-200 | a request is turned away exactly inside a recorded bound, which changes nothing; the first one at or after it is sent |
| Providers.CallIsThreeSteps | src/hermes_cti/enrichment/providers.py:178-302 | a call that nothing interrupts is a check, a send and an outcome, and leaves the same state |
| Providers.OverlapKeepsOrder | src/hermes_cti/enrichment/providers.py:165-302 | in every interleaving: no more in flight than slots, sends at least the interval apart, classified failures in order of outcome, the stored bound the last recorded |
| Providers.CooldownKeptExactly | src/hermes_cti/enrichment/providers.py:178-302 | in every interleaving each send respects every recorded bound if and only if no request is overtaken by a bound recorded after its check and none is sent under a bound that two rate-limited requests in flight together made fall |
| Providers.SerialCooldownExactly | src/hermes_cti/enrichment/providers.py:178-302 | with one slot that holds if and only if no request is sent at a time earlier than a bound recorded after its own check |
| Providers.RequestsAreOvertaken | src/hermes_cti/enrichment/providers.py:178-302 | a run in which a request is overtaken |
| Providers.RequestsSlipUnder | src/hermes_cti/enrichment/providers.py:178-302 | a run in which none is overtaken and one is sent under a fallen bound |
| Scoring.ComponentWithinMaximum | src/hermes_cti/enrichment/scoring.py:63-120 | rounding keeps every component between 0 and its maximum |
| Scoring.ContributionLaws | src/hermes_cti/enrichment/scoring.py:50-119 | a known exploitation counts 25; CVSS counts double up to 10, EPSS 20 fold, significance 10 fold and reliability 7.5 fold up to 1, each of up to three corroborating sources 2.5; recency falls evenly from 10 to 0 over 365 days from the modification, else the publication |
| Scoring.ComponentsAreContributions | src/hermes_cti/enrichment/scoring.py:72-119 | the stored components are these, each rounded to the nearest fourth decimal, under their maxima |
| Scoring.ScoreIsSum | src/hermes_cti/enrichment/scoring.py:63-135 | the stored score is exactly the sum of its rounded components |
| Scoring.ScoreAlwaysAccepted | src/hermes_cti/models/contracts.py:1049-1066 | for every input the score satisfies the `PriorityScore` contract |
| Scoring.RoundingGap | src/hermes_cti/enrichment/scoring.py:63-135 | rounding moves the total by at most 0.00025 |
| Scoring.ExploitationAddsExactly | src/hermes_cti/enrichment/scoring.py:72-135 | learning of an exploitation adds exactly 25, whatever else is known |
| Scoring.ScoreEndsExactly | src/hermes_cti/enrichment/scoring.py:63-135 | the score is 100 exactly when every contribution is within half a unit of the fourth decimal of its maximum, and 0 exactly when every one is within half a unit of nothing |
| Scoring.TopScores | src/hermes_cti/enrichment/scoring.py:63-135 | so it is 100 when every input is at its top and 0 when nothing is known |
| Scoring.ConfidenceLaw | src/hermes_cti/enrichment/scoring.py:119-132 | confidence is 0.4 times reliability, a tenth for each of up to three corroborating sources, and 0.3 when the exploitation is known either way, else 0.075 |
| Scoring.ScoreMonotone | src/hermes_cti/enrichment/scoring.py:63-135 | the score is monotone in all inputs at once, rounding included |
| RecoveryGates.RecoveryGate.Evaluate | scripts/recovery_gate.py:79-154 | an uninterrupted `evaluate`: the new directory state, the held event, and a decision that names the evidence's event and the audit line just written |
| RecoveryGates.RecoveryGate.Complete | scripts/recovery_gate.py:156-164 | only the owner with a known outcome completes; one completed line for the event is audited, the event is dropped and the lock goes unless it cannot be removed; an error changes nothing |
| RecoveryGates.DecisionIsAudited | scripts/recovery_gate.py:79-154 | the decision is an approval exactly when recovery is asked for, no cooldown runs and nobody holds the lock; it names its evidence's event, which is then audited and, on approval, held |
| RecoveryGates.ApprovalCompletes | scripts/recovery_gate.py:79-164 | with the decision just returned and a known outcome `complete` succeeds, answers that attempt in the log, gives the event up and frees the lock unless its directory cannot be removed |
| RecoveryGates.ApprovedCanComplete | scripts/recovery_gate.py:79-164 | the same for a gate that holds its event, after any steps of other gates |
| RecoveryGates.EvaluateRefinesSteps | scripts/recovery_gate.py:79-154 | the four file operations without interruption are one `evaluate` |
| RecoveryGates.StepKeepsInvariant | scripts/recovery_gate.py:79-164 | every single operation of any gate keeps ownership, lock and log consistent |
| RecoveryGates.GateSafety | scripts/recovery_gate.py:79-164 | in every interleaving, crashes included, one gate at most owns, an owner implies the lock, attempted and completed records alternate with matching events |
| RecoveryGates.OnlyOwnerReleases | scripts/recovery_gate.py:156-164 | only the owner removes the lock, after its completed record |
| RecoveryGates.OwnerlessLockBlocksForever | scripts/recovery_gate.py:118-164 | a lock left by a crash or by a failed removal stays, and no gate attempts again |
| RecoveryGates.AttemptFollowsExactly | scripts/recovery_gate.py:79-164 | given a further gate that could pass its check, some continuation attempts again if and only if there is no lock or a live gate owns it |
| RecoveryGates.AttemptsKeepCooldown | scripts/recovery_gate.py:101-118 | with whole calls of gates with any cooldowns, every recorded attempt comes at least its own gate's cooldown after the one before |
| RecoveryGates.CooldownBrokenExactly | scripts/recovery_gate.py:101-154 | over every run of gates with any cooldowns, some attempt is recorded less than its own gate's cooldown after the one before if and only if some audited attempt took its lock although the state file had been rewritten, after that gate's check, with a time less than that cooldown ago |
| RecoveryGates.UnchangedReadsKeepCooldown | scripts/recovery_gate.py:101-154 | a run in which every lock is taken with the state file as the gate read it keeps the cooldown |
| RecoveryGates.InterleavingBreaksCooldown | scripts/recovery_gate.py:101-120 | such a run exists |
| Reconciler.ProfileHome.Reconcile | scripts/reconcile-hermes-profiles.py:270-435 | the file loop with its backups computes the reconciled tree and report, or stops at the first error |
| Reconciler.InstalledFacts | scripts/reconcile-hermes-profiles.py:293-371 | each staging file is decided by the state before the run, and the tree after the loop is known path by path |
| Reconciler.ReconcileInstalls | scripts/reconcile-hermes-profiles.py:293-435 | managed files are the rendered source, protected files their old bytes if any, operator files untouched, overwritten bytes in the backup |
| Reconciler.ReportTellsFiles | scripts/reconcile-hermes-profiles.py:293-435 | with or without `--replace` the report has one line for each staging file with its owner, its action and the hashes of the rendered bytes and of the bytes left there, then `.env`; every other listed file comes with the hash of its bytes; the manifest repeats the hashes of exactly the managed files |
| Reconciler.ReconcileFailsExactly | scripts/reconcile-hermes-profiles.py:298-357 | a run succeeds exactly when every staging file and `.env` has acceptable content and a destination that is free or a file; otherwise it names the first that has not, and what came before is installed |
| Reconciler.ProtectedExactly | scripts/reconcile-hermes-profiles.py:100-101 | protected are `.env`, the audit log, and all sessions, logs, gateway state and memories |
| Reconciler.SecondRunIsQuiet | scripts/reconcile-hermes-profiles.py:262-371 | a second run succeeds, reports only unchanged or preserved, and writes nothing but the manifest and its backup |
| Reconciler.DryRunPredicts | scripts/reconcile-hermes-profiles.py:293-396 | a dry run writes nothing and returns the report or error of the actual run |
| Reconciler.EnvHashReported | scripts/reconcile-hermes-profiles.py:349-371 | the reported `.env` hash is that of the bytes left there, except exactly for an empty file kept beside a non-empty example |
| Reconciler.ReplaceKeepsNothing | scripts/reconcile-hermes-profiles.py:281-289 | after `--replace` every staging path holds rendered bytes and no operator file is left |
| Listing.ListingFacts | src/hermes_cti/correlation/engine.py:31-36 | `sorted(set(...))` has the members of its input, each once, in strict order |
| Listing.StrictlySortedUnique | src/hermes_cti/correlation/engine.py:31-36 | such a listing is determined by its members |
| Correlation.Correlate | src/hermes_cti/correlation/engine.py:99-137 | the loops compute the three sorted results |
| Correlation.ContradictionsLoop | src/hermes_cti/correlation/engine.py:257-295 | grouping in nested dictionaries reports the same claims as the assertions themselves |
| Correlation.CorrelationDependsOnLastItems | src/hermes_cti/correlation/engine.py:99-137 | two histories with the same last item per reference correlate alike |
| Correlation.CorrelationOrderIndependent | src/hermes_cti/correlation/engine.py:99-137 | every permutation of a history with distinct references gives the same three tuples |
| Correlation.CorrelationUsesLastDuplicate | src/hermes_cti/correlation/engine.py:99-137 | a history with repeated references counts as the last item of each |
| Correlation.RelationshipsExact | src/hermes_cti/correlation/engine.py:139-173 | one relationship per (prior, rule) exactly when the key sets meet, with the rule's type and confidence, the earlier and later of the dates and the sorted union of evidence, ordered by identifier and rule |
| Correlation.CandidatesExact | src/hermes_cti/correlation/engine.py:175-255 | a candidate is listed exactly when it comes from the last item of a reference by a shared key in a candidate field, by overlap or a gap of at most 180 days, or by a similarity of the subject, with that way's type and score and the sorted union of evidence; once for every way, ordered by target, type and identifier |
| Correlation.ContradictionsExact | src/hermes_cti/correlation/engine.py:257-295 | the call fails exactly when a claim that is stated with two values has fewer than two pieces of evidence; otherwise exactly those claims are listed in order, each with all values and all evidence that the subject and the last item of every reference state, sorted |
| Correlation.FieldScoreBounded | src/hermes_cti/correlation/engine.py:175-255 | a candidate's score stays between its base and one and rises with the shared keys |
| HttpFetch.Fetch | src/hermes_cti/ingestion/http_client.py:376-579 | the retry loop computes requests, sleeps and outcome of the whole script of answers |
| HttpFetch.Attempt | src/hermes_cti/ingestion/http_client.py:411-579 | one attempt with its stream closing and its handlers |
| HttpFetch.ReadBody | src/hermes_cti/ingestion/http_client.py:470-512 | the bounded chunk loop returns the joined body, or too large, or the transport error |
| HttpFetch.DecompressGzip | src/hermes_cti/ingestion/http_client.py:323-350 | the loop always progresses and returns the whole stream or an error, never more than the limit |
| HttpFetch.RetryDelayBounded | src/hermes_cti/ingestion/http_client.py:352-374 | every delay lies between 0 and the maximum |
| HttpFetch.RetryDelayLaws | src/hermes_cti/ingestion/http_client.py:352-374 | a Retry-After in seconds or as a date is obeyed between 0 and the maximum; without a readable one the delay is the backoff doubled with every attempt, with jitter only where there is none at all |
| HttpFetch.JoinStrings | src/hermes_cti/ingestion/http_client.py:470-512 | the body is its chunks one behind the other |
| HttpFetch.FetchEndsExactly | src/hermes_cti/ingestion/http_client.py:376-579 | for every script a request follows exactly when the one before is to be retried, and the outcome is what the last exchange calls for: status, whole or unzipped body and degraded flag of an answer in order, otherwise the kind of error |
| HttpFetch.GoodAnswerIsReturned | src/hermes_cti/ingestion/http_client.py:411-536 | a plain answer in order is returned whole once it is reached |
| HttpFetch.SleepsExactly | src/hermes_cti/ingestion/http_client.py:376-579 | the sleeps are those of the requests sent, in order: for a retryable status as its Retry-After says, for an exception that is retried the plain backoff |
| HttpFetch.FetchBounded | src/hermes_cti/ingestion/http_client.py:376-579 | for every script: 1 to retries + 1 requests, at most two sleeps a retry and none above the maximum, the final assertion unreachable, no body above the limit, unzipped or not |
| HttpFetch.RetriesReportedExactly | src/hermes_cti/ingestion/http_client.py:376-579 | for every script the reported retries are the sleeps taken if and only if no sent attempt with a retryable status also failed to close its stream, and the last one is not a failed gunzip unless it is the only one |
| HttpFetch.RetrySleepsTwice | src/hermes_cti/ingestion/http_client.py:411-423 | a script on which two sleeps are taken and one retry reported exists |
| HttpFetch.BodiesIdenticalExactly | src/hermes_cti/ingestion/http_client.py:376-579 | all requests carry the same body exactly when no retried attempt had read a different response in full |
| HttpFetch.ReadResponseIsResent | src/hermes_cti/ingestion/http_client.py:376-579 | a script on which they differ exists |
| Query.OneEscapePerCharacter | src/hermes_cti/detections/generators.py:125-126 | the three replacements equal one escape per character |
| Query.PrintedForm | src/hermes_cti/detections/generators.py:161-175 | the text that each backend prints for two conditions under a named index, an empty one and none |
| Query.SafeFieldExactly | src/hermes_cti/detections/generators.py:136-138 | a field starts with an ASCII letter or underscore and goes on with those, digits, dots and hyphens |
| Query.LiteralEndsAtItsQuote | src/hermes_cti/detections/generators.py:125-126 | a printed literal ends at its own closing quote and gives its value back with newlines as spaces |
| Query.ReadBack | src/hermes_cti/detections/generators.py:161-175 | for both backends, parsing the printed query recovers fields, values and columns in order |
| Query.SameTextExactly | src/hermes_cti/detections/generators.py:161-175 | two queries of one backend and index print alike if and only if columns, fields and values agree up to newline for space |
| Query.ConvertedRuleReadsBack | src/hermes_cti/detections/generators.py:129-175 | a converted rule is printed exactly when every field is safe and evidence is given, and then it reads back |
| Query.NothingReadInside | src/hermes_cti/detections/generators.py:161-175 | no reading of a printed body starts inside a literal: the last opening quote would never be closed |
| Query.KqlTextExactly | src/hermes_cti/detections/generators.py:161-175 | two KQL queries print alike if and only if they show the same table, columns, fields and values, whatever the tables are called |
| Query.SplTextExactly | src/hermes_cti/detections/generators.py:161-175 | two SPL queries print alike if and only if they agree in all that is shown, or the index of one is the other's followed by its first printed comparisons and an AND |
| Query.UnindexedSwallows | src/hermes_cti/detections/generators.py:161-175 | without an index that takes a first comparison on a field called `index` |
| Query.SafeIndexesReadBack | src/hermes_cti/detections/generators.py:161-175 | with indexes made of name characters two queries of either backend print alike if and only if they agree in all that is shown, the index included |
| Query.IndexIsPrintedRaw | src/hermes_cti/detections/generators.py:161-175 | in SPL any first comparison can move into a given index without changing the text |

## Left out

- Refang.RefangText: pattern matching is modelled by position and length; Unicode case folding beyond the long s is not part of the model.
- Extraction.CollectCandidates: the regexes (whose matches lie inside the searched text) and the normalizers for domains, URLs, addresses and hashes are parameters, because their contents are not what the property depends on.
- Extraction.ExtractDocument: document identifiers and rule names of CVE entries are not modelled.
- Cursor.CursorRoundTrip: JSON and ISO timestamps are one injective rendering with a parser that inverts it.
- Pagination.WalkOverChangingTable: every write is assumed to stamp rows after all earlier stamps that a reader has seen; commit order under concurrent transactions is not modelled.
- Pagination: search terms, publication and the other filters are one row predicate per page read; provenance and item conversion are not modelled.
- Persistence.Repository.UpsertSource: configuration hashes and stable identifiers are functions, injective where a lemma says so; raw artifacts, source-run rows and provider responses are not modelled.
- DailyRun.Database.PersistCollection: raw artifacts, source-run rows and the rows that extraction persists are not modelled; the counters copied from the manifest are left out.
- DailyRun.Database.RunOnce: manifests and findings are what the collection delivers; transactions and the advisory lock are atomic, and a death drops the session's lock.
- Vulnerability.VulnerabilityRepository.PersistEnrichment: typed conversion of the other provider fields is a parameter, timestamps and reasons of selection rows are left out, and equal retrieval times keep insertion order.
- Enrichment.EnrichmentService.Enrich: the aggregate status, the list of skipped providers and the score inputs are not modelled.
- Providers.CooldownKeptExactly: any waiting request may be sent next; the first-come order of the semaphore is not modelled.
- Providers.HistoryFacts: a sleep is assumed to last at least as long as asked, and Retry-After is not negative; times are real seconds, and a date beyond the calendar only counts where the cooldown is added.
- Scoring.ScoreAlwaysAccepted: floats are real numbers with rounding to four decimals, ties to even; severity and evidence identifiers are left out.
- RecoveryGates.RecoveryGate.Evaluate: an unreadable state file counts as absent; generated event identifiers are given and failures to write are not modelled.
- Reconciler.ProfileHome.Reconcile: symlinks, directories, file modes, rendering, the sibling copy made by `--replace`, the sorting of the report and its summary counts are left out; the manifest is an uninterpreted function of the managed assets.
- Correlation.RelationshipsExact: identifiers are functions; the resurfacing detector and model proposals are not modelled.
- Correlation.CandidatesExact: the order among candidates with the same target, type and identifier, which follows the subject's similarities, is not stated.
- HttpFetch.Fetch: the retry limit is the smaller of policy and configuration, already taken; redirects, content negotiation and header parsing are what each answer delivers; Retry-After that is not a finite number is not modelled.
- Query.ReadBack: Sigma, YARA and external converters are not modelled.
- Web routes, command line, portal, logging, settings, migrations, narrative generators and the scheduler: plumbing or single branches.
