/** enrichment/cache.py and enrichment/service.py: the TTL cache with stale-if-error, the provider
    loop over it, and the merge of the providers' results. */
module Enrichment {
  import opened Contracts
  import opened Wrappers

  datatype Response = Response(
    provider: string,
    queryKey: string,
    status: Status,
    expiresAt: Option<int>,
    retryable: bool,
    error: Option<string>,
    detail: Option<string>,
    cacheHit: bool,
    normalized: map<string, Option<string>>)

  predicate Storable(r: Response) {
    r.status == Success || r.status == Partial
  }

  datatype Lookup = Lookup(response: Option<Response>, isFresh: bool, isStale: bool)

  type Entries = map<string, Response>

  /** Case folding and trimming are left open. */
  datatype Settings = Settings(fold: string -> string, strip: string -> string, staleSeconds: nat)

  function Key(c: Settings, provider: string, queryKey: string): string {
    c.fold(provider) + ":" + c.fold(c.strip(queryKey))
  }

  predicate Fresh(r: Response, now: int) {
    r.expiresAt.None? || now < r.expiresAt.value
  }

  predicate InStaleWindow(c: Settings, r: Response, now: int) {
    r.expiresAt.Some? && r.expiresAt.value <= now <= r.expiresAt.value + c.staleSeconds
  }

  /** `EnrichmentCache.get`. */
  function Found(c: Settings, entries: Entries, provider: string, queryKey: string, now: int): Lookup {
    var key := Key(c, provider, queryKey);
    if key !in entries then Lookup(None, false, false)
    else
      var hit := Some(entries[key].(cacheHit := true));
      if Fresh(entries[key], now) then Lookup(hit, true, false)
      else if InStaleWindow(c, entries[key], now) then Lookup(hit, false, true)
      else Lookup(None, false, false)
  }

  /** `EnrichmentCache.put`. */
  function Stored(c: Settings, entries: Entries, r: Response): Entries {
    if Storable(r) then entries[Key(c, r.provider, r.queryKey) := r] else entries
  }

  /** An entry is fresh without an expiry or before it, stale from then to the end of its window, and
      otherwise not found; what is found is the entry marked as a hit. */
  lemma LookupExactly(c: Settings, entries: Entries, provider: string, queryKey: string, now: int)
    ensures var key, lookup := Key(c, provider, queryKey), Found(c, entries, provider, queryKey, now);
      var expiry := if key in entries then entries[key].expiresAt else None;
      && (lookup.isFresh <==> key in entries && (expiry.None? || now < expiry.value))
      && (lookup.isStale <==> expiry.Some? && expiry.value <= now && now - expiry.value <= c.staleSeconds)
      && (lookup.response.Some? <==> lookup.isFresh || lookup.isStale)
      && (lookup.response.Some? ==> lookup.response.value == entries[key].(cacheHit := true))
  {
  }

  /** Only successes and partial successes are kept, under their own key, and nothing else moves. */
  lemma OnlySuccessesAreKept(c: Settings, entries: Entries, r: Response)
    ensures r.status != Success && r.status != Partial ==> Stored(c, entries, r) == entries
    ensures r.status == Success || r.status == Partial ==>
              Stored(c, entries, r) == entries[c.fold(r.provider) + ":" + c.fold(c.strip(r.queryKey)) := r]
  {
  }

  /** A provider consultation: what is asked, when, and what the provider would answer; `None` is an
      exception that it lets through. */
  datatype Consult = Consult(provider: string, queryKey: string, now: int, reply: Option<Response>)

  function StaleCopy(hit: Response, reply: Response): Response {
    hit.(status := Stale, cacheHit := true,
         error := if reply.error.Some? then reply.error else Some("unavailable"),
         detail := if reply.detail.Some? && reply.detail.value != "" then reply.detail
                   else Some("provider unavailable; stale result served"),
         retryable := reply.retryable)
  }

  /** One turn of the provider loop: the cache afterwards, the response unless an exception passes,
      whether the provider was asked. */
  function Served(c: Settings, entries: Entries, q: Consult): (Entries, Option<Response>, bool) {
    var lookup := Found(c, entries, q.provider, q.queryKey, q.now);
    if lookup.isFresh && lookup.response.Some? then (entries, lookup.response, false)
    else if q.reply.None? then (entries, None, true)
    else
      var reply := q.reply.value;
      if Storable(reply) then (Stored(c, entries, reply), Some(reply), true)
      else if lookup.isStale && lookup.response.Some?
      then (entries, Some(StaleCopy(lookup.response.value, reply)), true)
      else (entries, Some(reply), true)
  }

  /** What a history of consultations leaves in the cache. */
  function CacheAfter(c: Settings, entries: Entries, qs: seq<Consult>): Entries {
    if qs == [] then entries else Served(c, CacheAfter(c, entries, qs[..|qs| - 1]), qs[|qs| - 1]).0
  }

  /** The cache, and the responses so far unless an exception ended the call. */
  datatype Progress = Progress(entries: Entries, responses: Option<seq<Response>>)

  function Turn(c: Settings, p: Progress, q: Consult): Progress {
    if p.responses.None? then p
    else
      var (after, r, _) := Served(c, p.entries, q);
      Progress(after, if r.Some? then Some(p.responses.value + [r.value]) else None)
  }

  /** One call of `enrich`: the first exception ends it, without any response. */
  function ServedAll(c: Settings, entries: Entries, qs: seq<Consult>): Progress {
    if qs == [] then Progress(entries, Some([])) else Turn(c, ServedAll(c, entries, qs[..|qs| - 1]), qs[|qs| - 1])
  }

  class EnrichmentCache {
    const settings: Settings
    var entries: Entries

    constructor (fold: string -> string, strip: string -> string, staleSeconds: int)
      ensures settings == Settings(fold, strip, if staleSeconds < 0 then 0 else staleSeconds) && entries == map[]
    {
      settings := Settings(fold, strip, if staleSeconds < 0 then 0 else staleSeconds);
      entries := map[];
    }

    method Get(provider: string, queryKey: string, now: int) returns (lookup: Lookup)
      ensures lookup == Found(settings, entries, provider, queryKey, now)
    {
      var key := Key(settings, provider, queryKey);
      if key !in entries {
        return Lookup(None, false, false);
      }
      var response := entries[key];
      if response.expiresAt.Some? && now < response.expiresAt.value {
        return Lookup(Some(response.(cacheHit := true)), true, false);
      }
      if response.expiresAt.None? {
        return Lookup(Some(response.(cacheHit := true)), true, false);
      }
      var staleLimit := response.expiresAt.value + settings.staleSeconds;
      if now <= staleLimit {
        return Lookup(Some(response.(cacheHit := true)), false, true);
      }
      lookup := Lookup(None, false, false);
    }

    method Put(response: Response)
      modifies this
      ensures entries == Stored(settings, old(entries), response)
    {
      if response.status != Success && response.status != Partial {
        return;
      }
      entries := entries[Key(settings, response.provider, response.queryKey) := response];
    }
  }

  datatype Provider = Provider(name: string, kinds: set<string>)

  datatype Request = Request(queryKey: string, queryKind: string, requestedAt: int)

  /** What each provider would answer to a request, if it does not raise. */
  type Answers = (string, Request) -> Option<Response>

  function Consults(providers: seq<Provider>, request: Request, answers: Answers): seq<Consult> {
    if providers == [] then []
    else
      var last := providers[|providers| - 1];
      Consults(providers[..|providers| - 1], request, answers)
      + if request.queryKind in last.kinds
        then [Consult(last.name, request.queryKey, request.requestedAt, answers(last.name, request))] else []
  }

  lemma {:induction false} ConsultsPrefix(providers: seq<Provider>, n: nat, request: Request, answers: Answers)
    requires n <= |providers|
    ensures Consults(providers[..n], request, answers) <= Consults(providers, request, answers)
    decreases |providers|
  {
    if n < |providers| {
      var front := providers[..|providers| - 1];
      ConsultsPrefix(front, n, request, answers);
      assert front[..n] == providers[..n];
    } else {
      assert providers[..n] == providers;
    }
  }

  /** The consultations are those of the providers that serve the query kind, one each, in their order. */
  lemma {:induction false} ConsultsExactly(providers: seq<Provider>, request: Request, answers: Answers)
    returns (at: seq<nat>)
    ensures |at| == |Consults(providers, request, answers)|
    ensures forall j, k | 0 <= j < k < |at| :: at[j] < at[k]
    ensures forall k | 0 <= k < |at| ::
              && at[k] < |providers| && request.queryKind in providers[at[k]].kinds
              && var q := Consults(providers, request, answers)[k];
                 && q.provider == providers[at[k]].name && q.queryKey == request.queryKey
                 && q.now == request.requestedAt && q.reply == answers(q.provider, request)
    ensures forall i | 0 <= i < |providers| && request.queryKind in providers[i].kinds :: i in at
  {
    if providers == [] {
      at := [];
    } else {
      var n := |providers| - 1;
      at := ConsultsExactly(providers[..n], request, answers);
      var before := Consults(providers[..n], request, answers);
      assert before + [] == before;
      if request.queryKind in providers[n].kinds {
        at := at + [n];
        assert n in at;
      }
    }
  }

  class EnrichmentService {
    const providers: seq<Provider>
    const cache: EnrichmentCache

    constructor (providers: seq<Provider>, cache: EnrichmentCache)
      ensures this.providers == providers && this.cache == cache
    {
      this.providers, this.cache := providers, cache;
    }

    /** The loop of `enrich`: only providers serving the query kind, in fixed order.  Nothing is
        returned when a provider raises. */
    method Enrich(request: Request, answers: Answers) returns (result: Option<seq<Response>>)
      modifies cache
      ensures Progress(cache.entries, result)
           == ServedAll(cache.settings, old(cache.entries), Consults(providers, request, answers))
    {
      var responses: seq<Response> := [];
      for i := 0 to |providers|
        invariant Progress(cache.entries, Some(responses))
               == ServedAll(cache.settings, old(cache.entries), Consults(providers[..i], request, answers))
      {
        var provider := providers[i];
        assert providers[..i + 1][..i] == providers[..i];
        ghost var asked := Consults(providers[..i], request, answers);
        if request.queryKind !in provider.kinds {
          assert Consults(providers[..i + 1], request, answers) == asked;
          continue;
        }
        ghost var q := Consult(provider.name, request.queryKey, request.requestedAt, answers(provider.name, request));
        assert Consults(providers[..i + 1], request, answers) == asked + [q] && (asked + [q])[..|asked|] == asked;
        var lookup := cache.Get(provider.name, request.queryKey, request.requestedAt);
        if lookup.isFresh && lookup.response.Some? {
          responses := responses + [lookup.response.value];
          continue;
        }
        var answer := answers(provider.name, request);
        if answer.None? {
          ConsultsPrefix(providers, i + 1, request, answers);
          RaiseEnds(cache.settings, old(cache.entries), asked + [q], Consults(providers, request, answers));
          return None;
        }
        var response := answer.value;
        if response.status == Success || response.status == Partial {
          cache.Put(response);
        } else if lookup.isStale && lookup.response.Some? {
          response := StaleCopy(lookup.response.value, response);
        }
        responses := responses + [response];
      }
      assert providers[..|providers|] == providers;
      result := Some(responses);
    }
  }

  // --- the cache over every history of consultations ---

  /** Providers answer under their own name, to the query asked, and never claim to be stale. */
  ghost predicate WellFormed(q: Consult) {
    q.reply.Some? ==>
      && q.reply.value.provider == q.provider && q.reply.value.queryKey == q.queryKey
      && q.reply.value.status != Stale && !q.reply.value.cacheHit
  }

  predicate Succeeds(q: Consult) {
    q.reply.Some? && Storable(q.reply.value)
  }

  /** The last successful answer given for a key, among the answers actually asked for. */
  function LastStored(c: Settings, entries: Entries, qs: seq<Consult>, key: string): Option<Response> {
    if qs == [] then if key in entries then Some(entries[key]) else None
    else
      var front, q := qs[..|qs| - 1], qs[|qs| - 1];
      if Served(c, CacheAfter(c, entries, front), q).2 && Succeeds(q) && Key(c, q.provider, q.queryKey) == key
      then q.reply else LastStored(c, entries, front, key)
  }

  /** Every entry sits under its own key, is a success, and is the last success stored there. */
  ghost predicate Sound(c: Settings, entries: Entries) {
    forall k | k in entries ::
      k == Key(c, entries[k].provider, entries[k].queryKey) && Storable(entries[k]) && !entries[k].cacheHit
  }

  /** A turn stores the answer asked for exactly when it is a success. */
  lemma ServedStores(c: Settings, entries: Entries, q: Consult)
    requires WellFormed(q)
    ensures var (after, _, asked) := Served(c, entries, q);
      after == if asked && Succeeds(q) then entries[Key(c, q.provider, q.queryKey) := q.reply.value] else entries
  {
  }

  lemma {:induction false} CacheSound(c: Settings, qs: seq<Consult>)
    requires forall q | q in qs :: WellFormed(q)
    ensures var entries := CacheAfter(c, map[], qs);
      && Sound(c, entries)
      && forall k :: LastStored(c, map[], qs, k) == if k in entries then Some(entries[k]) else None
  {
    if qs != [] {
      var front, q := qs[..|qs| - 1], qs[|qs| - 1];
      assert q in qs && forall x | x in front :: x in qs;
      CacheSound(c, front);
      ServedStores(c, CacheAfter(c, map[], front), q);
      hide Served, Key;
    }
  }

  /** The stale response: error, detail and retryability of the failed answer, with defaults, and all
      else from the last success. */
  ghost predicate StaleOf(last: Response, reply: Response, r: Response) {
    && r.provider == last.provider && r.queryKey == last.queryKey && r.expiresAt == last.expiresAt
    && r.normalized == last.normalized && r.status == Stale && r.cacheHit && r.retryable == reply.retryable
    && r.error == Some(if reply.error.Some? then reply.error.value else "unavailable")
    && r.detail == Some(if reply.detail.Some? && reply.detail.value != "" then reply.detail.value
                        else "provider unavailable; stale result served")
  }

  /** Not expired: without an expiry, or before it. */
  ghost predicate Unexpired(last: Response, now: int) {
    match last.expiresAt case None => true case Some(at) => now < at
  }

  /** What one turn says about the cache and the provider, after any history. */
  ghost predicate Justified(c: Settings, last: Option<Response>, q: Consult, r: Option<Response>, asked: bool) {
    if !asked then last.Some? && Unexpired(last.value, q.now) && r == Some(last.value.(cacheHit := true))
    else
      && (last.Some? ==> !Unexpired(last.value, q.now))
      && (r.None? <==> q.reply.None?)
      && (r.Some? ==>
            if r.value.status == Stale then
              && q.reply.value.status != Success && q.reply.value.status != Partial
              && last.Some? && last.value.expiresAt.Some? && q.now <= last.value.expiresAt.value + c.staleSeconds
              && StaleOf(last.value, q.reply.value, r.value)
            else r == q.reply)
  }

  /** After any history on an empty cache: a response not asked for is the last success stored under
      its key, unexpired, marked as a hit; an exception of the provider asked passes; a stale
      response appears only when the provider answered without success inside the window of the last
      success; every other response is the provider's own, asked for because nothing fresh was
      there. */
  lemma ResponsesJustified(c: Settings, qs: seq<Consult>, q: Consult)
    requires WellFormed(q) && forall x | x in qs :: WellFormed(x)
    ensures var (_, r, asked) := Served(c, CacheAfter(c, map[], qs), q);
      Justified(c, LastStored(c, map[], qs, Key(c, q.provider, q.queryKey)), q, r, asked)
  {
    CacheSound(c, qs);
  }

  /** The stale fallback is served exactly when the provider answers without success inside the stale
      window; a provider that raises there ends the call instead. */
  lemma StaleServedExactlyWhen(c: Settings, qs: seq<Consult>, q: Consult)
    requires WellFormed(q) && forall x | x in qs :: WellFormed(x)
    ensures var last := LastStored(c, map[], qs, Key(c, q.provider, q.queryKey));
      var r := Served(c, CacheAfter(c, map[], qs), q).1;
      var inWindow := last.Some? && last.value.expiresAt.Some?
        && last.value.expiresAt.value <= q.now <= last.value.expiresAt.value + c.staleSeconds;
      && (r.Some? && r.value.status == Stale <==> q.reply.Some? && !Succeeds(q) && inWindow)
      && (inWindow && !Succeeds(q) ==> (r.None? <==> q.reply.None?))
  {
    CacheSound(c, qs);
  }

  // --- one call ---

  /** How many consultations a call gets to. */
  function Reached(c: Settings, entries: Entries, qs: seq<Consult>): (n: nat)
    ensures n <= |qs|
  {
    if qs == [] then 0
    else
      var front := qs[..|qs| - 1];
      if ServedAll(c, entries, front).responses.None? then Reached(c, entries, front) else |qs|
  }

  lemma LastTurn(c: Settings, entries: Entries, qs: seq<Consult>)
    requires qs != []
    ensures var front, q := qs[..|qs| - 1], qs[|qs| - 1]; var before := ServedAll(c, entries, front);
      && ServedAll(c, entries, qs) == Turn(c, before, q)
      && CacheAfter(c, entries, qs) == Served(c, CacheAfter(c, entries, front), q).0
      && Reached(c, entries, qs) == if before.responses.None? then Reached(c, entries, front) else |qs|
  {
    hide Served;
  }

  lemma {:induction false} ReachedFacts(c: Settings, entries: Entries, qs: seq<Consult>)
    ensures ServedAll(c, entries, qs).entries == CacheAfter(c, entries, qs[..Reached(c, entries, qs)])
    ensures ServedAll(c, entries, qs).responses.Some? ==> Reached(c, entries, qs) == |qs|
  {
    if qs != [] {
      var front, n := qs[..|qs| - 1], Reached(c, entries, qs);
      ReachedFacts(c, entries, front);
      LastTurn(c, entries, qs);
      assert qs[..n] == if n < |qs| then front[..n] else qs;
      assert front[..|front|] == front;
      hide Served, ServedAll, CacheAfter, Reached;
    }
  }

  lemma {:induction false} RaiseEnds(c: Settings, entries: Entries, qs: seq<Consult>, all: seq<Consult>)
    requires qs <= all && ServedAll(c, entries, qs).responses.None?
    ensures ServedAll(c, entries, all) == ServedAll(c, entries, qs)
    decreases |all|
  {
    if |qs| < |all| {
      assert qs <= all[..|all| - 1];
      RaiseEnds(c, entries, qs, all[..|all| - 1]);
    } else {
      assert qs == all;
    }
  }

  /** Consultation `k` asks a provider, after all before it, and that raises. */
  ghost predicate RaisedAt(c: Settings, entries: Entries, qs: seq<Consult>, k: nat)
    requires k < |qs|
  {
    Served(c, CacheAfter(c, entries, qs[..k]), qs[k]).1.None?
  }

  lemma RaisedFront(c: Settings, entries: Entries, qs: seq<Consult>, k: nat)
    requires k < |qs| - 1
    ensures RaisedAt(c, entries, qs[..|qs| - 1], k) == RaisedAt(c, entries, qs, k)
  {
    assert qs[..|qs| - 1][..k] == qs[..k];
  }

  lemma FailsNext(c: Settings, entries: Entries, qs: seq<Consult>)
    requires qs != []
    ensures ServedAll(c, entries, qs).responses.None?
        <==> ServedAll(c, entries, qs[..|qs| - 1]).responses.None? || RaisedAt(c, entries, qs, |qs| - 1)
  {
    var front := qs[..|qs| - 1];
    LastTurn(c, entries, qs);
    ReachedFacts(c, entries, front);
    assert front[..|front|] == front;
    hide Served, Reached, CacheAfter, ServedAll;
  }

  /** A call fails exactly when some provider raises that it asks. */
  lemma {:induction false} CallFailsExactly(c: Settings, entries: Entries, qs: seq<Consult>)
    ensures ServedAll(c, entries, qs).responses.None? <==> exists k: nat | k < |qs| :: RaisedAt(c, entries, qs, k)
  {
    if qs == [] { return; }
    var front := qs[..|qs| - 1];
    CallFailsExactly(c, entries, front);
    FailsNext(c, entries, qs);
    hide ServedAll, RaisedAt;
    if k: nat :| k < |front| && RaisedAt(c, entries, front, k) {
      RaisedFront(c, entries, qs, k);
    }
    if k: nat :| k < |front| && RaisedAt(c, entries, qs, k) {
      RaisedFront(c, entries, qs, k);
    }
  }

  /** Otherwise there is one response for each, served from what the ones before it left. */
  lemma {:induction false} ResponseAt(c: Settings, entries: Entries, qs: seq<Consult>, k: nat)
    requires k < |qs| && ServedAll(c, entries, qs).responses.Some?
    ensures var responses := ServedAll(c, entries, qs).responses.value;
      |responses| == |qs| && Some(responses[k]) == Served(c, CacheAfter(c, entries, qs[..k]), qs[k]).1
  {
    var front := qs[..|qs| - 1];
    LastTurn(c, entries, qs);
    ReachedFacts(c, entries, front);
    assert front[..|front|] == front;
    hide Served, Reached, CacheAfter, ServedAll;
    if k < |front| {
      ResponseAt(c, entries, front, k);
      assert qs[..k] == front[..k];
    } else {
      if front != [] {
        ResponseAt(c, entries, front, 0);
      } else {
        NothingServed(c, entries);
      }
      assert qs[..k] == front;
    }
  }

  lemma NothingServed(c: Settings, entries: Entries)
    ensures ServedAll(c, entries, []).responses == Some([])
  {
  }

  // --- any sequence of `enrich` calls ---

  /** The cache that the calls leave behind, each starting from what the one before left. */
  function AfterCalls(c: Settings, entries: Entries, calls: seq<seq<Consult>>): Entries {
    if calls == [] then entries
    else ServedAll(c, AfterCalls(c, entries, calls[..|calls| - 1]), calls[|calls| - 1]).entries
  }

  /** The consultations that the calls got to, one after the other. */
  function Joined(c: Settings, entries: Entries, calls: seq<seq<Consult>>): seq<Consult> {
    if calls == [] then []
    else
      var front, last := calls[..|calls| - 1], calls[|calls| - 1];
      Joined(c, entries, front) + last[..Reached(c, AfterCalls(c, entries, front), last)]
  }

  lemma {:induction false} CacheAppend(c: Settings, entries: Entries, a: seq<Consult>, b: seq<Consult>)
    ensures CacheAfter(c, entries, a + b) == CacheAfter(c, CacheAfter(c, entries, a), b)
  {
    if b == [] {
      assert a + b == a;
    } else {
      var front, q := b[..|b| - 1], b[|b| - 1];
      CacheAppend(c, entries, a, front);
      assert (a + b)[..|a + b| - 1] == a + front && (a + b)[|a + b| - 1] == q;
    }
  }

  lemma {:induction false} CallsJoin(c: Settings, entries: Entries, calls: seq<seq<Consult>>)
    ensures AfterCalls(c, entries, calls) == CacheAfter(c, entries, Joined(c, entries, calls))
  {
    if calls != [] {
      var front, last := calls[..|calls| - 1], calls[|calls| - 1];
      CallsJoin(c, entries, front);
      ReachedFacts(c, AfterCalls(c, entries, front), last);
      CacheAppend(c, entries, Joined(c, entries, front), last[..Reached(c, AfterCalls(c, entries, front), last)]);
    }
  }

  lemma {:induction false} JoinedMembers(c: Settings, entries: Entries, calls: seq<seq<Consult>>, q: Consult)
    requires q in Joined(c, entries, calls)
    ensures exists i | 0 <= i < |calls| :: q in calls[i]
  {
    var front, last := calls[..|calls| - 1], calls[|calls| - 1];
    if q in last {
    } else {
      JoinedMembers(c, entries, front, q);
      var i :| 0 <= i < |front| && q in front[i];
      assert q in calls[i];
    }
  }

  /** After any sequence of `enrich` calls on an empty cache, failed ones included, every response of
      the next call is justified by everything consulted before it, in earlier calls and in its
      own. */
  lemma EveryCallJustified(c: Settings, calls: seq<seq<Consult>>, call: seq<Consult>, k: nat)
    requires k < |call| && (forall q | q in call :: WellFormed(q))
    requires forall i | 0 <= i < |calls| :: forall q | q in calls[i] :: WellFormed(q)
    ensures var responses := ServedAll(c, AfterCalls(c, map[], calls), call).responses;
      var past, q := Joined(c, map[], calls) + call[..k], call[k];
      responses.Some? ==>
        && |responses.value| == |call|
        && Justified(c, LastStored(c, map[], past, Key(c, q.provider, q.queryKey)), q, Some(responses.value[k]),
                     Served(c, CacheAfter(c, map[], past), q).2)
  {
    var past, q := Joined(c, map[], calls) + call[..k], call[k];
    forall x | x in past ensures WellFormed(x) {
      if x in Joined(c, map[], calls) {
        JoinedMembers(c, map[], calls, x);
      }
    }
    CallsJoin(c, map[], calls);
    CacheAppend(c, map[], Joined(c, map[], calls), call[..k]);
    if ServedAll(c, AfterCalls(c, map[], calls), call).responses.Some? {
      ResponseAt(c, AfterCalls(c, map[], calls), call, k);
    }
    ResponsesJustified(c, past, q);
    hide Justified, ServedAll, CacheAfter, Joined, AfterCalls, LastStored, WellFormed, Served;
  }

  /** Two queries share an entry exactly when they fold alike, provided no folded provider name
      contains the separator. */
  lemma KeysSeparate(c: Settings, p: string, q: string, p': string, q': string)
    requires ':' !in c.fold(p) && ':' !in c.fold(p')
    ensures Key(c, p, q) == Key(c, p', q') <==> c.fold(p) == c.fold(p') && c.fold(c.strip(q)) == c.fold(c.strip(q'))
  {
    var a, b := c.fold(p), c.fold(p');
    var k, k' := Key(c, p, q), Key(c, p', q');
    if k == k' {
      assert k[|a|] == ':' && k'[|b|] == ':';
      assert forall i | 0 <= i < |a| :: a[i] == k[i] != ':';
      assert forall i | 0 <= i < |b| :: b[i] == k'[i] != ':';
      assert |a| == |b|;
      assert a == k[..|a|] == k'[..|b|] == b;
      assert c.fold(c.strip(q)) == k[|a| + 1..] == k'[|b| + 1..] == c.fold(c.strip(q'));
    }
  }

  // --- merging ---

  predicate Contributes(r: Response) {
    r.status != Disabled && r.status != Unavailable
  }

  /** Non-null values observed for a field, in provider order. */
  function Observed(responses: seq<Response>, field: string): seq<string> {
    if responses == [] then []
    else
      var last := responses[|responses| - 1];
      Observed(responses[..|responses| - 1], field)
      + if Contributes(last) && field in last.normalized && last.normalized[field].Some?
        then [last.normalized[field].value] else []
  }

  /** A provider that was available reports this value for the field. */
  ghost predicate Reports(r: Response, field: string, value: string) {
    r.status != Disabled && r.status != Unavailable && field in r.normalized && r.normalized[field] == Some(value)
  }

  /** The values come from these responses, in their order. */
  ghost predicate ComeFrom(values: seq<string>, responses: seq<Response>, field: string, at: seq<nat>) {
    && |at| == |values| && (forall j, k | 0 <= j < k < |at| :: at[j] < at[k])
    && (forall k | 0 <= k < |at| :: at[k] < |responses| && Reports(responses[at[k]], field, values[k]))
  }

  /** The values gathered are those of the responses that report the field, one each, in order. */
  lemma {:induction false} ObservedExactly(responses: seq<Response>, field: string) returns (at: seq<nat>)
    ensures ComeFrom(Observed(responses, field), responses, field, at)
    ensures forall i, value | 0 <= i < |responses| && Reports(responses[i], field, value) :: i in at
  {
    if responses == [] {
      at := [];
    } else {
      var n := |responses| - 1;
      var front, last := responses[..n], responses[n];
      at := ObservedExactly(front, field);
      var before := Observed(front, field);
      ObservedSnoc(front, last, field);
      assert front + [last] == responses;
      hide Observed;
      if Contributes(last) && field in Reported(last) {
        ComeFromSnoc(before, front, field, at, last, Reported(last)[field]);
        at := at + [n];
        assert n in at;
      } else {
        assert before + [] == before;
      }
    }
  }

  lemma ComeFromSnoc(
      values: seq<string>, responses: seq<Response>, field: string, at: seq<nat>, r: Response, value: string)
    requires ComeFrom(values, responses, field, at) && Reports(r, field, value)
    ensures ComeFrom(values + [value], responses + [r], field, at + [|responses|])
  {
    hide Reports;
  }

  predicate Disagree(values: seq<string>) {
    exists i, j | 0 <= i < j < |values| :: values[i] != values[j]
  }

  /** The value is that of the first response that reports the field. */
  ghost predicate FirstReport(responses: seq<Response>, field: string, value: string) {
    exists i: nat | i < |responses| ::
      Reports(responses[i], field, value) && forall j, other | 0 <= j < i :: !Reports(responses[j], field, other)
  }

  /** Two responses report different values. */
  ghost predicate Disputed(responses: seq<Response>, field: string) {
    exists i: nat, j: nat, v, w | i < |responses| && j < |responses| ::
      Reports(responses[i], field, v) && Reports(responses[j], field, w) && v != w
  }

  /** What the list of values says about the responses. */
  lemma ObservedTells(responses: seq<Response>, field: string)
    ensures var values := Observed(responses, field);
      && (forall v :: FirstReport(responses, field, v) <==> values != [] && values[0] == v)
      && (Disputed(responses, field) <==> Disagree(values))
  {
    var values := Observed(responses, field);
    var at := ObservedExactly(responses, field);
    hide Observed;
    if values != [] {
      assert Reports(responses[at[0]], field, values[0]);
      assert forall k | 0 <= k < |at| :: at[0] <= at[k];
      assert forall j | 0 <= j < at[0] :: j !in at;
      assert FirstReport(responses, field, values[0]);
    }
    forall v | FirstReport(responses, field, v) ensures values != [] && values[0] == v {
      var i: nat :| i < |responses| && Reports(responses[i], field, v)
        && forall j, other | 0 <= j < i :: !Reports(responses[j], field, other);
      assert i in at;
      assert Reports(responses[at[0]], field, values[0]);
    }
    if Disputed(responses, field) {
      var i: nat, j: nat, v, w :| i < |responses| && j < |responses|
        && Reports(responses[i], field, v) && Reports(responses[j], field, w) && v != w;
      assert i in at && j in at;
      var a :| 0 <= a < |at| && at[a] == i;
      var b :| 0 <= b < |at| && at[b] == j;
      assert values[a] == v && values[b] == w;
      assert if a < b then values[a] != values[b] else values[b] != values[a];
    }
    if Disagree(values) {
      var a, b :| 0 <= a < b < |values| && values[a] != values[b];
      assert Reports(responses[at[a]], field, values[a]) && Reports(responses[at[b]], field, values[b]);
    }
  }

  /** What the loop has gathered for one field: every value reported, and the first one. */
  ghost predicate GatheredField(
    values: seq<string>, observed: map<string, seq<string>>, merged: map<string, string>, f: string)
  {
    && (f in observed <==> values != [])
    && (f in merged <==> f in observed)
    && (f in observed ==> observed[f] == values && merged[f] == values[0])
  }

  ghost predicate Gathered(responses: seq<Response>, observed: map<string, seq<string>>, merged: map<string, string>) {
    forall f :: GatheredField(Observed(responses, f), observed, merged, f)
  }

  function Reported(response: Response): map<string, string> {
    map f | f in response.normalized && response.normalized[f].Some? :: response.normalized[f].value
  }

  function Extended(observed: map<string, seq<string>>, reported: map<string, string>): map<string, seq<string>> {
    observed + map f | f in reported :: (if f in observed then observed[f] else []) + [reported[f]]
  }

  lemma ObservedSnoc(responses: seq<Response>, response: Response, f: string)
    ensures Observed(responses + [response], f)
         == Observed(responses, f)
            + if Contributes(response) && f in Reported(response) then [Reported(response)[f]] else []
  {
    assert (responses + [response])[..|responses|] == responses;
  }

  lemma FieldStep(
      values: seq<string>, observed: map<string, seq<string>>, merged: map<string, string>,
      reported: map<string, string>, f: string)
    requires GatheredField(values, observed, merged, f)
    ensures GatheredField(values + if f in reported then [reported[f]] else [],
                          Extended(observed, reported), reported + merged, f)
  {
  }

  lemma GatherStep(
      responses: seq<Response>, response: Response, observed: map<string, seq<string>>, merged: map<string, string>)
    requires Gathered(responses, observed, merged)
    ensures !Contributes(response) ==> Gathered(responses + [response], observed, merged)
    ensures Contributes(response) ==>
              Gathered(responses + [response], Extended(observed, Reported(response)), Reported(response) + merged)
  {
    hide Observed, Contributes, Reported, Extended, GatheredField;
    forall f ensures
      GatheredField(Observed(responses + [response], f),
        if Contributes(response) then Extended(observed, Reported(response)) else observed,
        if Contributes(response) then Reported(response) + merged else merged, f)
    {
      ObservedSnoc(responses, response, f);
      assert Observed(responses, f) + [] == Observed(responses, f);
      FieldStep(Observed(responses, f), observed, merged, Reported(response), f);
    }
  }

  /** `_merge_results`: the first provider to report a field decides it; a field is a conflict
      exactly when two reported values differ, and then every value is kept. */
  method MergeResults(responses: seq<Response>)
    returns (merged: map<string, string>, conflicts: map<string, seq<string>>)
    ensures forall f, v :: FirstReport(responses, f, v) <==> f in merged && merged[f] == v
    ensures forall f :: Disputed(responses, f) <==> f in conflicts
    ensures forall f | f in conflicts :: conflicts[f] == Observed(responses, f)
  {
    merged := map[];
    var observed: map<string, seq<string>> := map[];
    for i := 0 to |responses|
      invariant Gathered(responses[..i], observed, merged)
    {
      hide Gathered, Contributes, Observed, Reported, Extended;
      var response := responses[i];
      GatherStep(responses[..i], response, observed, merged);
      assert responses[..i + 1] == responses[..i] + [response];
      if !Contributes(response) { continue; }
      var reported := Reported(response);
      observed := Extended(observed, reported);
      merged := reported + merged;
    }
    assert responses[..|responses|] == responses;
    conflicts := map f | f in observed && Disagree(observed[f]) :: observed[f];
    hide Observed, Disagree, FirstReport, Disputed;
    forall f ensures forall v :: FirstReport(responses, f, v) <==> f in merged && merged[f] == v
      ensures Disputed(responses, f) <==> f in conflicts
      ensures f in conflicts ==> conflicts[f] == Observed(responses, f)
    {
      ObservedTells(responses, f);
      assert GatheredField(Observed(responses, f), observed, merged, f);
      EmptyAgrees();
    }
  }

  lemma EmptyAgrees()
    ensures !Disagree([])
  {
  }
}
