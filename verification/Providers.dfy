/** `BaseProvider` of enrichment/providers.py: cooldown after a rate limit, failure count, and
    spacing of dispatches, judged against the history of calls. */
module Providers {
  import opened Wrappers

  datatype ErrorClass =
    | Timeout | RateLimit | RetryableHttp | HttpError | Authentication
    | MalformedPayload | SchemaDrift | InvalidRequest | DisabledError | UnavailableError

  /** What the retrieval of one dispatched request does.  A delivered payload may carry headers that
      the metadata contract refuses.  `Escapes` is an exception that no handler of `enrich` names.
      Retry-After is never negative. */
  datatype Retrieval =
    | Delivers(quota: Option<int>, readable: bool)
    | Fails(error: ErrorClass, retryAfter: Option<real>)
    | Escapes

  datatype Config = Config(enabled: bool, minInterval: real, concurrency: int)

  /** Wall-clock times come with requests, `lastRequest` is monotonic time. */
  datatype State = State(
    lastRequest: real,
    lastAttemptAt: Option<real>,
    lastSuccessAt: Option<real>,
    lastError: Option<ErrorClass>,
    failures: nat,
    rateLimitedUntil: Option<real>,
    quota: Option<int>)

  const START: State := State(0.0, None, None, None, 0, None, None)

  /** One `enrich`: request time, the two monotonic readings around the spacing sleep, the retrieval. */
  datatype Call = Call(now: real, before: real, after: real, retrieval: Retrieval)

  datatype Reply =
    | RepliesDisabled
    | RepliesCooldown
    | RepliesSuccess
    | RepliesFailure(error: ErrorClass, retryable: bool)
    | Raises

  /** The first second that a `datetime` cannot hold, counted from 1970. */
  const END_OF_TIME: real := 253402300800.0

  predicate InCooldown(until: Option<real>, now: real) {
    until.Some? && now < until.value
  }

  predicate Dispatches(cfg: Config, st: State, now: real) {
    cfg.enabled && !InCooldown(st.rateLimitedUntil, now)
  }

  /** `rate_limit_seconds or 30`. */
  function CooldownSeconds(retryAfter: Option<real>): real {
    if retryAfter.Some? && retryAfter.value != 0.0 then retryAfter.value else 30.0
  }

  predicate Retryable(error: ErrorClass) {
    error == Timeout || error == RateLimit || error == RetryableHttp || error == UnavailableError
  }

  /** A request leaves for the server. */
  function Begun(st: State, now: real, after: real): State {
    st.(lastRequest := after, lastAttemptAt := Some(now))
  }

  /** The end of the cooldown that a rate-limited request of this time asks for. */
  function Until(now: real, retryAfter: Option<real>): real {
    now + CooldownSeconds(retryAfter)
  }

  /** A rate-limited request records its bound, unless the addition overflows. */
  predicate Limits(now: real, r: Retrieval) {
    r.Fails? && r.error == RateLimit && Until(now, r.retryAfter) < END_OF_TIME
  }

  /** Retry-After is not negative. */
  predicate Patient(r: Retrieval) {
    r.Fails? && r.retryAfter.Some? ==> r.retryAfter.value >= 0.0
  }

  function Bound(now: real, r: Retrieval): real
    requires Limits(now, r)
  {
    Until(now, r.retryAfter)
  }

  /** Its outcome arrives. */
  function Ended(st: State, now: real, r: Retrieval): State {
    match r
    case Delivers(quota, readable) =>
      st.(lastSuccessAt := Some(now), lastError := None, failures := 0, quota := if readable then quota else st.quota)
    case Fails(error, _) =>
      st.(lastError := Some(error), failures := st.failures + 1,
          rateLimitedUntil := if Limits(now, r) then Some(Bound(now, r)) else st.rateLimitedUntil)
    case Escapes => st
  }

  /** What the caller gets for it. */
  function Answer(now: real, r: Retrieval): Reply {
    match r
    case Delivers(_, readable) => if readable then RepliesSuccess else Raises
    case Fails(error, _) =>
      if error == RateLimit && !Limits(now, r) then Raises else RepliesFailure(error, Retryable(error))
    case Escapes => Raises
  }

  /** What a dispatched request leaves behind. */
  function Dispatched(st: State, c: Call): State {
    Ended(Begun(st, c.now, c.after), c.now, c.retrieval)
  }

  function Called(cfg: Config, st: State, c: Call): State {
    if Dispatches(cfg, st, c.now) then Dispatched(st, c) else st
  }

  function Replied(cfg: Config, st: State, c: Call): Reply {
    if !cfg.enabled then RepliesDisabled
    else if InCooldown(st.rateLimitedUntil, c.now) then RepliesCooldown
    else Answer(c.now, c.retrieval)
  }

  /** A sleep lasts at least as long as asked. */
  predicate SleepHonoured(cfg: Config, st: State, before: real, after: real) {
    after >= before && after - before >= cfg.minInterval - (before - st.lastRequest)
  }

  datatype HealthStatus = HealthDisabled | HealthDegraded | HealthSuccess

  datatype Health = Health(
    status: HealthStatus,
    lastAttemptAt: Option<real>,
    lastSuccessAt: Option<real>,
    consecutiveFailures: nat,
    rateLimitedUntil: Option<real>,
    quota: Option<int>,
    lastError: Option<ErrorClass>)

  function HealthOf(cfg: Config, st: State): Health {
    Health(if !cfg.enabled then HealthDisabled else if st.failures > 0 then HealthDegraded else HealthSuccess,
           st.lastAttemptAt, st.lastSuccessAt, st.failures, st.rateLimitedUntil, st.quota, st.lastError)
  }

  class BaseProvider {
    const cfg: Config
    var lastRequest: real
    var lastAttemptAt: Option<real>
    var lastSuccessAt: Option<real>
    var lastError: Option<ErrorClass>
    var failures: nat
    var rateLimitedUntil: Option<real>
    var quota: Option<int>

    constructor (cfg: Config)
      ensures this.cfg == cfg && View() == START
    {
      this.cfg := cfg;
      lastRequest, lastAttemptAt, lastSuccessAt, lastError := 0.0, None, None, None;
      failures, rateLimitedUntil, quota := 0, None, None;
    }

    ghost function View(): State
      reads this
    {
      State(lastRequest, lastAttemptAt, lastSuccessAt, lastError, failures, rateLimitedUntil, quota)
    }

    /** A disabled or cooling provider changes nothing; otherwise the request is dispatched.  An
        exception reaches the caller with the fields as they were when it was thrown. */
    method Enrich(c: Call) returns (reply: Reply)
      modifies this
      ensures View() == Called(cfg, old(View()), c) && reply == Replied(cfg, old(View()), c)
    {
      if !cfg.enabled {
        return RepliesDisabled;
      }
      if rateLimitedUntil.Some? && c.now < rateLimitedUntil.value {
        return RepliesCooldown;
      }
      lastRequest := c.after;
      lastAttemptAt := Some(c.now);
      match c.retrieval {
        case Delivers(q, readable) =>
          lastSuccessAt, lastError, failures := Some(c.now), None, 0;
          if !readable {
            return Raises;
          }
          quota := q;
          reply := RepliesSuccess;
        case Fails(error, retryAfter) =>
          reply := Failure(c.now, error, retryAfter);
        case Escapes =>
          reply := Raises;
      }
    }

    method Failure(now: real, error: ErrorClass, retryAfter: Option<real>) returns (reply: Reply)
      modifies this`lastError, this`failures, this`rateLimitedUntil
      ensures lastError == Some(error) && failures == old(failures) + 1
      ensures var bounds := error == RateLimit && Until(now, retryAfter) < END_OF_TIME;
        && rateLimitedUntil == (if bounds then Some(Until(now, retryAfter)) else old(rateLimitedUntil))
        && reply == if error == RateLimit && !bounds then Raises else RepliesFailure(error, Retryable(error))
    {
      lastError := Some(error);
      failures := failures + 1;
      if error == RateLimit {
        if Until(now, retryAfter) >= END_OF_TIME {
          return Raises;
        }
        rateLimitedUntil := Some(Until(now, retryAfter));
      }
      reply := RepliesFailure(error, Retryable(error));
    }

    /** `health`. */
    method Report() returns (health: Health)
      ensures health == HealthOf(cfg, View())
    {
      var status := HealthSuccess;
      if !cfg.enabled {
        status := HealthDisabled;
      } else if failures != 0 {
        status := HealthDegraded;
      }
      health := Health(status, lastAttemptAt, lastSuccessAt, failures, rateLimitedUntil, quota, lastError);
    }
  }

  // --- every history of calls ---

  function After(cfg: Config, calls: seq<Call>): State {
    if calls == [] then START else Called(cfg, After(cfg, calls[..|calls| - 1]), calls[|calls| - 1])
  }

  /** The calls that reached the provider's server, in order. */
  function Sent(cfg: Config, calls: seq<Call>): seq<Call> {
    if calls == [] then []
    else
      var front, c := calls[..|calls| - 1], calls[|calls| - 1];
      Sent(cfg, front) + if Dispatches(cfg, After(cfg, front), c.now) then [c] else []
  }

  predicate Limited(c: Call) {
    Limits(c.now, c.retrieval)
  }

  function BoundOf(c: Call): real
    requires Limited(c)
  {
    Bound(c.now, c.retrieval)
  }

  function Outcomes(sent: seq<Call>): seq<Retrieval> {
    seq(|sent|, k requires 0 <= k < |sent| => sent[k].retrieval)
  }

  /** Clock readings are honest at every call: sleeps are honoured, Retry-After is not negative. */
  ghost predicate Honest(cfg: Config, calls: seq<Call>) {
    forall n | 0 <= n < |calls| ::
      && SleepHonoured(cfg, After(cfg, calls[..n]), calls[n].before, calls[n].after)
      && Patient(calls[n].retrieval)
  }

  /** Classified failures since the last delivery; exceptions that escape are passed over. */
  function TrailingFailures(outcomes: seq<Retrieval>): nat {
    if outcomes == [] then 0
    else
      var earlier := outcomes[..|outcomes| - 1];
      match outcomes[|outcomes| - 1]
      case Delivers(_, _) => 0
      case Fails(_, _) => TrailingFailures(earlier) + 1
      case Escapes => TrailingFailures(earlier)
  }

  ghost predicate CooldownRespected(sent: seq<Call>) {
    forall i, j | 0 <= i < j < |sent| && Limited(sent[i]) ::
      sent[j].now >= BoundOf(sent[i]) && (Limited(sent[j]) ==> BoundOf(sent[j]) > BoundOf(sent[i]))
  }

  ghost predicate Spaced(cfg: Config, sent: seq<Call>) {
    forall i | 0 < i < |sent| :: sent[i].after - sent[i - 1].after >= cfg.minInterval
  }

  /** The stored bound is the latest one, and no earlier one exceeds it. */
  ghost predicate BoundCurrent(st: State, sent: seq<Call>) {
    && (forall i | 0 <= i < |sent| && Limited(sent[i]) ::
          st.rateLimitedUntil.Some? && BoundOf(sent[i]) <= st.rateLimitedUntil.value)
    && (st.rateLimitedUntil.Some? ==>
          exists i :: 0 <= i < |sent| && Limited(sent[i]) && BoundOf(sent[i]) == st.rateLimitedUntil.value)
  }

  lemma HonestPrefix(cfg: Config, calls: seq<Call>)
    requires calls != [] && Honest(cfg, calls)
    ensures Honest(cfg, calls[..|calls| - 1])
  {
    var front := calls[..|calls| - 1];
    forall n | 0 <= n < |front| ensures front[..n] == calls[..n] {}
  }

  ghost predicate Agrees(cfg: Config, st: State, sent: seq<Call>) {
    && CooldownRespected(sent) && Spaced(cfg, sent) && BoundCurrent(st, sent)
    && st.failures == TrailingFailures(Outcomes(sent))
    && (sent != [] ==> st.lastRequest == sent[|sent| - 1].after)
  }

  /** Over every history: no request is sent before any recorded bound, recorded bounds strictly
      increase, the failure count is the classified failures since the last delivery, and
      consecutive sends are at least the minimum interval apart. */
  lemma {:induction false} HistoryFacts(cfg: Config, calls: seq<Call>)
    requires Honest(cfg, calls)
    ensures Agrees(cfg, After(cfg, calls), Sent(cfg, calls))
  {
    if calls != [] {
      var front, c := calls[..|calls| - 1], calls[|calls| - 1];
      HonestPrefix(cfg, calls);
      HistoryFacts(cfg, front);
      assert SleepHonoured(cfg, After(cfg, front), c.before, c.after);
      if Dispatches(cfg, After(cfg, front), c.now) {
        SentStep(cfg, After(cfg, front), Sent(cfg, front), c);
      } else {
        assert Sent(cfg, calls) == Sent(cfg, front);
      }
    }
  }

  lemma SentStep(cfg: Config, st: State, sent: seq<Call>, c: Call)
    requires Agrees(cfg, st, sent) && Dispatches(cfg, st, c.now) && SleepHonoured(cfg, st, c.before, c.after)
    requires Patient(c.retrieval)
    ensures Agrees(cfg, Dispatched(st, c), sent + [c])
  {
    CooldownStep(st, sent, c);
    BoundStep(st, sent, c);
    OutcomesSnoc(sent, c);
    hide CooldownRespected, BoundCurrent, Outcomes, TrailingFailures;
  }

  lemma CooldownStep(st: State, sent: seq<Call>, c: Call)
    requires CooldownRespected(sent) && BoundCurrent(st, sent) && !InCooldown(st.rateLimitedUntil, c.now)
    requires Patient(c.retrieval)
    ensures CooldownRespected(sent + [c])
  {
    forall i | 0 <= i < |sent| && Limited(sent[i]) ensures c.now >= BoundOf(sent[i]) {}
  }

  lemma BoundStep(st: State, sent: seq<Call>, c: Call)
    requires BoundCurrent(st, sent) && !InCooldown(st.rateLimitedUntil, c.now)
    requires Patient(c.retrieval)
    ensures BoundCurrent(Dispatched(st, c), sent + [c])
  {
    var all, st' := sent + [c], Dispatched(st, c);
    if Limited(c) {
      assert Limited(all[|sent|]) && BoundOf(all[|sent|]) == st'.rateLimitedUntil.value;
    } else if st'.rateLimitedUntil.Some? {
      var i :| 0 <= i < |sent| && Limited(sent[i]) && BoundOf(sent[i]) == st.rateLimitedUntil.value;
      assert all[i] == sent[i];
    }
  }

  /** A request is turned away exactly inside the current bound; turning it away changes nothing,
      so the bound is not re-armed, and the first request at or after it is sent. */
  lemma CooldownExact(cfg: Config, calls: seq<Call>, c: Call)
    requires cfg.enabled && Honest(cfg, calls)
    ensures var sent, st := Sent(cfg, calls), After(cfg, calls);
      && (Sent(cfg, calls + [c]) == sent + [c]
          <==> forall i | 0 <= i < |sent| && Limited(sent[i]) :: c.now >= BoundOf(sent[i]))
      && (Sent(cfg, calls + [c]) != sent + [c] ==>
            After(cfg, calls + [c]) == st && Replied(cfg, st, c) == RepliesCooldown)
  {
    HistoryFacts(cfg, calls);
    assert (calls + [c])[..|calls|] == calls;
    var sent := Sent(cfg, calls);
    assert Sent(cfg, calls + [c]) == sent + if Dispatches(cfg, After(cfg, calls), c.now) then [c] else [];
    assert |sent + []| != |sent + [c]|;
  }

  // --- what a failure means to the caller ---

  /** The failures that may pass by themselves. */
  ghost predicate Transient(error: ErrorClass) {
    match error
    case Timeout => true
    case RateLimit => true
    case RetryableHttp => true
    case UnavailableError => true
    case HttpError => false
    case Authentication => false
    case MalformedPayload => false
    case SchemaDrift => false
    case InvalidRequest => false
    case DisabledError => false
  }

  /** Until exactly that long after the request the provider turns requests away. */
  ghost predicate CoolsFor(cfg: Config, st: State, c: Call, seconds: real) {
    var after := Called(cfg, st, c);
    if c.now + seconds < 253402300800.0
    then && Replied(cfg, st, c) == RepliesFailure(RateLimit, true)
         && forall later: Call :: Replied(cfg, after, later) == RepliesCooldown <==> later.now < c.now + seconds
    else after.rateLimitedUntil == st.rateLimitedUntil && Replied(cfg, st, c) == Raises
  }

  /** A classified failure of a dispatched request reaches the caller under its class, retryable exactly
      when it is transient.  A rate limit closes the provider for the seconds of Retry-After, or for 30
      without one or at zero; beyond the last date it raises instead, and closes nothing. */
  lemma FailureTellsCaller(cfg: Config, st: State, c: Call)
    requires Dispatches(cfg, st, c.now) && c.retrieval.Fails?
    ensures var error, retryAfter := c.retrieval.error, c.retrieval.retryAfter;
      && (Replied(cfg, st, c) == RepliesFailure(error, Transient(error))
          || (error == RateLimit && Replied(cfg, st, c) == Raises))
      && Called(cfg, st, c).failures == st.failures + 1 && Called(cfg, st, c).lastError == Some(error)
      && (error == RateLimit && (retryAfter == None || retryAfter == Some(0.0)) ==> CoolsFor(cfg, st, c, 30.0))
      && (error == RateLimit && retryAfter.Some? && retryAfter.value != 0.0 ==> CoolsFor(cfg, st, c, retryAfter.value))
      && (error != RateLimit ==> Called(cfg, st, c).rateLimitedUntil == st.rateLimitedUntil)
  {
    assert Retryable(c.retrieval.error) == Transient(c.retrieval.error);
    hide Retryable, Transient;
  }

  /** What every other call gets: a disabled or cooling provider is not asked and stays as it is; a
      delivery is a success when its headers can be read; all else raises. */
  lemma RepliesExactly(cfg: Config, st: State, c: Call)
    ensures !cfg.enabled ==> Replied(cfg, st, c) == RepliesDisabled && Called(cfg, st, c) == st
    ensures var cooling := st.rateLimitedUntil.Some? && c.now < st.rateLimitedUntil.value;
      && (cfg.enabled && cooling ==> Replied(cfg, st, c) == RepliesCooldown && Called(cfg, st, c) == st)
      && (cfg.enabled && !cooling && c.retrieval.Delivers? ==>
            Replied(cfg, st, c) == if c.retrieval.readable then RepliesSuccess else Raises)
      && (cfg.enabled && !cooling && c.retrieval.Escapes? ==> Replied(cfg, st, c) == Raises)
  {
  }

  // --- health tells the history ---

  /** What `f` reads off the latest call with `p`. */
  function Latest<T>(sent: seq<Call>, p: Call -> bool, f: Call -> Option<T>): Option<T> {
    if sent == [] then None
    else
      var last := sent[|sent| - 1];
      if p(last) then f(last) else Latest(sent[..|sent| - 1], p, f)
  }

  lemma LatestSnoc<T>(sent: seq<Call>, c: Call, p: Call -> bool, f: Call -> Option<T>)
    ensures Latest(sent + [c], p, f) == if p(c) then f(c) else Latest(sent, p, f)
  {
    assert (sent + [c])[..|sent|] == sent;
  }

  predicate IsSent(c: Call) { true }

  predicate IsDelivered(c: Call) { c.retrieval.Delivers? }

  predicate IsRead(c: Call) { c.retrieval.Delivers? && c.retrieval.readable }

  predicate IsClassified(c: Call) { !c.retrieval.Escapes? }

  function TimeOf(c: Call): Option<real> { Some(c.now) }

  function QuotaOf(c: Call): Option<int> { if c.retrieval.Delivers? then c.retrieval.quota else None }

  function ErrorOf(c: Call): Option<ErrorClass> { if c.retrieval.Fails? then Some(c.retrieval.error) else None }

  function LimitOf(c: Call): Option<real> { if Limited(c) then Some(BoundOf(c)) else None }

  /** Each field shown is that of the latest call that can set it. */
  ghost predicate TellsDates(health: Health, sent: seq<Call>) {
    && health.lastAttemptAt == Latest(sent, IsSent, TimeOf)
    && health.lastSuccessAt == Latest(sent, IsDelivered, TimeOf)
    && health.quota == Latest(sent, IsRead, QuotaOf)
    && health.lastError == Latest(sent, IsClassified, ErrorOf)
    && health.rateLimitedUntil == Latest(sent, Limited, LimitOf)
  }

  lemma DatesStep(cfg: Config, st: State, sent: seq<Call>, c: Call)
    requires TellsDates(HealthOf(cfg, st), sent)
    ensures TellsDates(HealthOf(cfg, Dispatched(st, c)), sent + [c])
  {
    LatestSnoc(sent, c, IsSent, TimeOf);
    LatestSnoc(sent, c, IsDelivered, TimeOf);
    LatestSnoc(sent, c, IsRead, QuotaOf);
    LatestSnoc(sent, c, IsClassified, ErrorOf);
    LatestSnoc(sent, c, Limited, LimitOf);
    hide Latest;
  }

  lemma {:induction false} HistoryDates(cfg: Config, calls: seq<Call>)
    ensures TellsDates(HealthOf(cfg, After(cfg, calls)), Sent(cfg, calls))
  {
    if calls != [] {
      var front, c := calls[..|calls| - 1], calls[|calls| - 1];
      HistoryDates(cfg, front);
      hide TellsDates, Dispatched;
      if Dispatches(cfg, After(cfg, front), c.now) {
        DatesStep(cfg, After(cfg, front), Sent(cfg, front), c);
      } else {
        assert Sent(cfg, calls) == Sent(cfg, front);
      }
    }
  }

  predicate Succeeds(c: Call) {
    Answer(c.now, c.retrieval) == RepliesSuccess
  }

  /** Sends without a success since the last one that had it. */
  function TrailingUnsuccessful(sent: seq<Call>): nat {
    if sent == [] || Succeeds(sent[|sent| - 1]) then 0 else TrailingUnsuccessful(sent[..|sent| - 1]) + 1
  }

  /** Every classified failure was followed by a delivery. */
  ghost predicate FailuresCleared(sent: seq<Call>) {
    forall i | 0 <= i < |sent| && sent[i].retrieval.Fails? :: exists j | i < j < |sent| :: IsDelivered(sent[j])
  }

  /** A send without success, but for a classified failure, was followed by a success. */
  ghost predicate OthersForgiven(sent: seq<Call>) {
    forall i | 0 <= i < |sent| && !sent[i].retrieval.Fails? && !Succeeds(sent[i]) ::
      exists j | i < j < |sent| :: Succeeds(sent[j])
  }

  lemma ClearedSnoc(sent: seq<Call>, c: Call)
    ensures FailuresCleared(sent + [c]) <==> IsDelivered(c) || (c.retrieval.Escapes? && FailuresCleared(sent))
  {
    var all := sent + [c];
    assert all[|sent|] == c;
    if c.retrieval.Escapes? && FailuresCleared(all) {
      forall i | 0 <= i < |sent| && sent[i].retrieval.Fails?
        ensures exists j | i < j < |sent| :: IsDelivered(sent[j])
      {
        assert all[i] == sent[i];
        var j :| i < j < |all| && IsDelivered(all[j]);
        assert all[j] == sent[j];
      }
    }
    if c.retrieval.Escapes? && FailuresCleared(sent) {
      forall i | 0 <= i < |all| && all[i].retrieval.Fails? ensures exists j | i < j < |all| :: IsDelivered(all[j]) {
        assert all[i] == sent[i];
        var j :| i < j < |sent| && IsDelivered(sent[j]);
        assert all[j] == sent[j];
      }
    }
  }

  lemma ForgivenSnoc(sent: seq<Call>, c: Call)
    ensures OthersForgiven(sent + [c]) <==> Succeeds(c) || (c.retrieval.Fails? && OthersForgiven(sent))
  {
    var all := sent + [c];
    assert all[|sent|] == c;
    if !Succeeds(c) && OthersForgiven(all) {
      forall i | 0 <= i < |sent| && !sent[i].retrieval.Fails? && !Succeeds(sent[i])
        ensures exists j | i < j < |sent| :: Succeeds(sent[j])
      {
        assert all[i] == sent[i];
        var j :| i < j < |all| && Succeeds(all[j]);
        assert all[j] == sent[j];
      }
    }
    if c.retrieval.Fails? && OthersForgiven(sent) {
      forall i | 0 <= i < |all| && !all[i].retrieval.Fails? && !Succeeds(all[i])
        ensures exists j | i < j < |all| :: Succeeds(all[j])
      {
        assert all[i] == sent[i];
        var j :| i < j < |sent| && Succeeds(sent[j]);
        assert all[j] == sent[j];
      }
    }
  }

  lemma OutcomesSnoc(sent: seq<Call>, c: Call)
    ensures TrailingFailures(Outcomes(sent + [c]))
         == match c.retrieval {
              case Delivers(_, _) => 0
              case Fails(_, _) => TrailingFailures(Outcomes(sent)) + 1
              case Escapes => TrailingFailures(Outcomes(sent))
            }
  {
    assert Outcomes(sent + [c]) == Outcomes(sent) + [c.retrieval];
    assert (Outcomes(sent) + [c.retrieval])[..|sent|] == Outcomes(sent);
  }

  lemma {:induction false} CountFacts(sent: seq<Call>)
    ensures TrailingFailures(Outcomes(sent)) == 0 <==> FailuresCleared(sent)
    ensures TrailingFailures(Outcomes(sent)) <= TrailingUnsuccessful(sent)
    ensures TrailingFailures(Outcomes(sent)) == TrailingUnsuccessful(sent) <==> OthersForgiven(sent)
  {
    if sent != [] {
      var front, c := sent[..|sent| - 1], sent[|sent| - 1];
      CountFacts(front);
      assert front + [c] == sent;
      ClearedSnoc(front, c);
      ForgivenSnoc(front, c);
      OutcomesSnoc(front, c);
      hide FailuresCleared, OthersForgiven, Outcomes, TrailingFailures;
    }
  }

  /** Health says whether the enabled provider's last request was a success. */
  ghost predicate TellsLast(cfg: Config, health: Health, sent: seq<Call>) {
    health.status == HealthDegraded <==> cfg.enabled && sent != [] && !Succeeds(sent[|sent| - 1])
  }

  /** The exact errors of the status and of the count. */
  ghost predicate HealthExact(cfg: Config, st: State, sent: seq<Call>) {
    var health := HealthOf(cfg, st);
    && (health.status == HealthDisabled <==> !cfg.enabled)
    && (TellsLast(cfg, health, sent)
        <==> !(cfg.enabled && sent != [] && FailuresCleared(sent)
               && Answer(sent[|sent| - 1].now, sent[|sent| - 1].retrieval) == Raises))
    && (health.consecutiveFailures == TrailingUnsuccessful(sent) <==> OthersForgiven(sent))
  }

  lemma CountTellsHealth(cfg: Config, st: State, sent: seq<Call>)
    requires st.failures == TrailingFailures(Outcomes(sent))
    ensures HealthExact(cfg, st, sent)
  {
    CountFacts(sent);
    if sent != [] {
      var front, c := sent[..|sent| - 1], sent[|sent| - 1];
      assert front + [c] == sent;
      ClearedSnoc(front, c);
    }
    hide FailuresCleared, OthersForgiven, TrailingFailures, Outcomes, TrailingUnsuccessful;
  }

  /** After any history of calls the reported health is read off the requests that were sent.  Its
      status tells the last one, except exactly when that one raised an exception and every
      classified failure was cleared; its count is the sends without success since the last
      success, except exactly when one of them was not a classified failure. */
  lemma HealthTellsHistory(cfg: Config, calls: seq<Call>)
    requires Honest(cfg, calls)
    ensures HealthExact(cfg, After(cfg, calls), Sent(cfg, calls))
    ensures TellsDates(HealthOf(cfg, After(cfg, calls)), Sent(cfg, calls))
  {
    HistoryFacts(cfg, calls);
    HistoryDates(cfg, calls);
    CountTellsHealth(cfg, After(cfg, calls), Sent(cfg, calls));
    hide HealthExact, TellsDates;
  }

  /** One request that raises leaves an enabled provider healthy, with no failure to count. */
  lemma EscapeLooksHealthy(c: Call)
    requires c.retrieval.Escapes?
    ensures var cfg := Config(true, 0.0, 1); var health := HealthOf(cfg, After(cfg, [c]));
      && Sent(cfg, [c]) == [c] && health.status == HealthSuccess && health.consecutiveFailures == 0
      && health.lastAttemptAt == Some(c.now) && health.lastSuccessAt == None
  {
    var cfg := Config(true, 0.0, 1);
    assert [c][..0] == [] && After(cfg, []) == START && Sent(cfg, []) == [];
  }

  // --- requests that overlap ---

  /** `send` numbers the requests in the order in which they left. */
  datatype Phase = Waiting | Flying(send: nat) | Finished

  /** A request that passed the cooldown check; `seen` bounds had been recorded by then. */
  datatype Ticket = Ticket(now: real, seen: nat, phase: Phase)

  /** A request as it was sent; `known` bounds had been recorded by then. */
  datatype Sending = Sending(now: real, after: real, seen: nat, known: nat)

  /** A bound and the request whose outcome recorded it. */
  datatype Record = Record(until: real, send: nat)

  /** What happened so far, in order. */
  datatype Log = Log(bounds: seq<Record>, sends: seq<Sending>, outcomes: seq<Retrieval>)

  /** `free` counts the semaphore's free slots. */
  datatype System = System(st: State, tickets: seq<Ticket>, free: nat, log: Log)

  /** The points between which other requests run: the cooldown check, the send (after the
      semaphore and the spacing sleep), the outcome. */
  datatype Step =
    | Arrive(now: real)
    | Start(t: nat, before: real, after: real)
    | Finish(t: nat, retrieval: Retrieval)

  function Slots(cfg: Config): nat {
    if cfg.concurrency < 1 then 1 else cfg.concurrency
  }

  function Idle(cfg: Config): System {
    System(START, [], Slots(cfg), Log([], [], []))
  }

  function InFlight(tickets: seq<Ticket>): nat {
    if tickets == [] then 0
    else InFlight(tickets[..|tickets| - 1]) + if tickets[|tickets| - 1].phase.Flying? then 1 else 0
  }

  predicate Starts(s: System, step: Step) {
    step.Start? && step.t < |s.tickets| && s.tickets[step.t].phase == Waiting && s.free > 0
  }

  predicate Finishes(s: System, step: Step) {
    step.Finish? && step.t < |s.tickets| && s.tickets[step.t].phase.Flying?
  }

  function Stepped(cfg: Config, s: System, step: Step): System {
    match step
    case Arrive(now) =>
      if Dispatches(cfg, s.st, now) then s.(tickets := s.tickets + [Ticket(now, |s.log.bounds|, Waiting)]) else s
    case Start(t, _, after) =>
      if !Starts(s, step) then s
      else
        var ticket := s.tickets[t];
        System(Begun(s.st, ticket.now, after), s.tickets[t := ticket.(phase := Flying(|s.log.sends|))], s.free - 1,
               s.log.(sends := s.log.sends + [Sending(ticket.now, after, ticket.seen, |s.log.bounds|)]))
    case Finish(t, r) =>
      if !Finishes(s, step) then s
      else
        var ticket := s.tickets[t];
        var recorded := if Limits(ticket.now, r) then [Record(Bound(ticket.now, r), ticket.phase.send)] else [];
        System(Ended(s.st, ticket.now, r), s.tickets[t := ticket.(phase := Finished)], s.free + 1,
               s.log.(bounds := s.log.bounds + recorded, outcomes := s.log.outcomes + [r]))
  }

  function Played(cfg: Config, steps: seq<Step>): System {
    if steps == [] then Idle(cfg) else Stepped(cfg, Played(cfg, steps[..|steps| - 1]), steps[|steps| - 1])
  }

  /** Sleeps are honoured, Retry-After is not negative. */
  ghost predicate HonestStep(cfg: Config, s: System, step: Step) {
    && (step.Start? ==> SleepHonoured(cfg, s.st, step.before, step.after))
    && (step.Finish? ==> Patient(step.retrieval))
  }

  ghost predicate HonestSteps(cfg: Config, steps: seq<Step>) {
    forall n | 0 <= n < |steps| :: HonestStep(cfg, Played(cfg, steps[..n]), steps[n])
  }

  lemma HonestFront(cfg: Config, steps: seq<Step>)
    requires steps != [] && HonestSteps(cfg, steps)
    ensures HonestSteps(cfg, steps[..|steps| - 1])
    ensures HonestStep(cfg, Played(cfg, steps[..|steps| - 1]), steps[|steps| - 1])
  {
    var front := steps[..|steps| - 1];
    forall n | 0 <= n < |front| ensures HonestStep(cfg, Played(cfg, front[..n]), front[n]) {
      assert front[..n] == steps[..n] && HonestStep(cfg, Played(cfg, steps[..n]), steps[n]);
    }
    assert HonestStep(cfg, Played(cfg, front), steps[|front|]);
  }

  /** A call that nothing interrupts is these three steps, and leaves the same state. */
  lemma CallIsThreeSteps(cfg: Config, s: System, c: Call)
    requires s.free > 0
    ensures var t := |s.tickets|;
      var arrived := Stepped(cfg, s, Arrive(c.now));
      Called(cfg, s.st, c)
      == if Dispatches(cfg, s.st, c.now)
         then Stepped(cfg, Stepped(cfg, arrived, Start(t, c.before, c.after)), Finish(t, c.retrieval)).st
         else arrived.st
  {
    var arrived := Stepped(cfg, s, Arrive(c.now));
    if Dispatches(cfg, s.st, c.now) {
      var sent := Stepped(cfg, arrived, Start(|s.tickets|, c.before, c.after));
      assert sent.tickets[|s.tickets|] == Ticket(c.now, |s.log.bounds|, Flying(|s.log.sends|));
    }
  }

  // --- what every interleaving keeps ---

  ghost predicate SendsSpaced(cfg: Config, sends: seq<Sending>) {
    forall i | 0 < i < |sends| :: sends[i].after - sends[i - 1].after >= cfg.minInterval
  }

  /** A request was admitted at or after the latest bound it could see. */
  ghost predicate Admitted(bounds: seq<Record>, now: real, seen: nat) {
    seen <= |bounds| && (seen > 0 ==> now >= bounds[seen - 1].until)
  }

  ghost predicate SlotsAccounted(cfg: Config, s: System) {
    InFlight(s.tickets) + s.free == if cfg.concurrency > 1 then cfg.concurrency else 1
  }

  ghost predicate CountTells(s: System) {
    s.st.failures == TrailingFailures(s.log.outcomes)
  }

  ghost predicate ClockTells(s: System) {
    s.log.sends != [] ==> s.st.lastRequest == s.log.sends[|s.log.sends| - 1].after
  }

  ghost predicate BoundTells(s: System) {
    s.st.rateLimitedUntil == if s.log.bounds == [] then None else Some(s.log.bounds[|s.log.bounds| - 1].until)
  }

  ghost predicate AllAdmitted(tickets: seq<Ticket>, log: Log) {
    && (forall t | 0 <= t < |tickets| :: Admitted(log.bounds, tickets[t].now, tickets[t].seen))
    && (forall i | 0 <= i < |log.sends| :: SentAfterCheck(log, log.sends[i]))
  }

  ghost predicate SentAfterCheck(log: Log, send: Sending) {
    send.seen <= send.known <= |log.bounds| && Admitted(log.bounds, send.now, send.seen)
  }

  /** A request in flight is one of those sent. */
  ghost predicate Tracked(tickets: seq<Ticket>, sends: seq<Sending>) {
    forall t | 0 <= t < |tickets| && tickets[t].phase.Flying? ::
      tickets[t].phase.send < |sends| && sends[tickets[t].phase.send].now == tickets[t].now
  }

  /** A bound lies after the time of the request that recorded it, and that request was sent before. */
  ghost predicate Linked(log: Log) {
    && (forall j | 0 <= j < |log.bounds| :: Recorded(log, j))
    && (forall k | 0 <= k < |log.sends| :: KnowsEarlier(log.bounds, log.sends[k].known, k))
  }

  ghost predicate KnowsEarlier(bounds: seq<Record>, known: nat, k: nat) {
    known <= |bounds| && forall j | 0 <= j < known :: bounds[j].send < k
  }

  ghost predicate Recorded(log: Log, j: nat)
    requires j < |log.bounds|
  {
    var record := log.bounds[j];
    record.send < |log.sends| && record.until >= log.sends[record.send].now && log.sends[record.send].known <= j
  }

  lemma {:induction false} InFlightMoves(tickets: seq<Ticket>, t: nat, phase: Phase)
    requires t < |tickets|
    ensures InFlight(tickets[t := tickets[t].(phase := phase)])
         == InFlight(tickets) - (if tickets[t].phase.Flying? then 1 else 0) + (if phase.Flying? then 1 else 0)
  {
    var front, moved := tickets[..|tickets| - 1], tickets[t := tickets[t].(phase := phase)];
    if t == |tickets| - 1 {
      assert moved[..|tickets| - 1] == front;
    } else {
      InFlightMoves(front, t, phase);
      assert moved[..|tickets| - 1] == front[t := front[t].(phase := phase)];
    }
  }

  lemma StepAccountsSlots(cfg: Config, s: System, step: Step)
    requires SlotsAccounted(cfg, s)
    ensures SlotsAccounted(cfg, Stepped(cfg, s, step))
  {
    if step.Arrive? {
      var tickets := s.tickets + [Ticket(step.now, |s.log.bounds|, Waiting)];
      assert tickets[..|s.tickets|] == s.tickets;
    } else if Starts(s, step) {
      InFlightMoves(s.tickets, step.t, Flying(|s.log.sends|));
      hide InFlight;
    } else if Finishes(s, step) {
      InFlightMoves(s.tickets, step.t, Finished);
      hide InFlight;
    }
  }

  lemma StepCounts(cfg: Config, s: System, step: Step)
    requires CountTells(s)
    ensures CountTells(Stepped(cfg, s, step))
  {
    if Finishes(s, step) {
      assert (s.log.outcomes + [step.retrieval])[..|s.log.outcomes|] == s.log.outcomes;
    } else {
      hide TrailingFailures;
    }
  }

  lemma StepSpaces(cfg: Config, s: System, step: Step)
    requires ClockTells(s) && SendsSpaced(cfg, s.log.sends) && HonestStep(cfg, s, step)
    ensures var after := Stepped(cfg, s, step); ClockTells(after) && SendsSpaced(cfg, after.log.sends)
  {
    hide TrailingFailures;
  }

  lemma StepTellsBound(cfg: Config, s: System, step: Step)
    requires BoundTells(s)
    ensures BoundTells(Stepped(cfg, s, step))
  {
  }

  lemma StepAdmits(cfg: Config, s: System, step: Step)
    requires BoundTells(s) && AllAdmitted(s.tickets, s.log)
    ensures var t := Stepped(cfg, s, step); AllAdmitted(t.tickets, t.log)
  {
    hide TrailingFailures;
    var after := Stepped(cfg, s, step);
    assert s.log.bounds <= after.log.bounds;
    forall now, seen | Admitted(s.log.bounds, now, seen) ensures Admitted(after.log.bounds, now, seen) {}
    if Starts(s, step) {
      assert Admitted(s.log.bounds, s.tickets[step.t].now, s.tickets[step.t].seen);
    }
  }

  lemma StepTracks(cfg: Config, s: System, step: Step)
    requires Tracked(s.tickets, s.log.sends)
    ensures var after := Stepped(cfg, s, step); Tracked(after.tickets, after.log.sends)
  {
    assert s.log.sends <= Stepped(cfg, s, step).log.sends;
  }

  lemma StepLinks(cfg: Config, s: System, step: Step)
    requires Tracked(s.tickets, s.log.sends) && Linked(s.log) && HonestStep(cfg, s, step)
    ensures Linked(Stepped(cfg, s, step).log)
  {
    hide Tracked;
    var before, after := s.log, Stepped(cfg, s, step).log;
    assert before.bounds <= after.bounds && before.sends <= after.sends;
    forall j: nat | j < |before.bounds| ensures Recorded(after, j) {
      assert Recorded(before, j);
    }
    forall k | 0 <= k < |before.sends| ensures KnowsEarlier(after.bounds, before.sends[k].known, k) {
      assert KnowsEarlier(before.bounds, before.sends[k].known, k);
    }
    if Finishes(s, step) && after.bounds != before.bounds {
      LastRecorded(cfg, s, step);
    } else if Starts(s, step) {
      forall j | 0 <= j < |before.bounds| ensures before.bounds[j].send < |before.sends| {
        assert Recorded(before, j);
      }
      assert KnowsEarlier(after.bounds, |before.bounds|, |before.sends|);
    }
  }

  lemma LastRecorded(cfg: Config, s: System, step: Step)
    requires Tracked(s.tickets, s.log.sends) && Linked(s.log) && HonestStep(cfg, s, step) && Finishes(s, step)
    requires Limits(s.tickets[step.t].now, step.retrieval)
    ensures Recorded(Stepped(cfg, s, step).log, |s.log.bounds|)
  {
    var send := s.tickets[step.t].phase.send;
    assert KnowsEarlier(s.log.bounds, s.log.sends[send].known, send);
  }

  ghost predicate Ordered(cfg: Config, s: System) {
    && SlotsAccounted(cfg, s) && CountTells(s) && ClockTells(s) && BoundTells(s) && SendsSpaced(cfg, s.log.sends)
    && AllAdmitted(s.tickets, s.log) && Tracked(s.tickets, s.log.sends) && Linked(s.log)
  }

  /** In every interleaving: no more requests are in flight than slots, sends are at least the
      interval apart, failures count the classified ones since the last delivery in order of
      arrival, and the stored bound is the last one recorded. */
  lemma {:induction false} OverlapKeepsOrder(cfg: Config, steps: seq<Step>)
    requires HonestSteps(cfg, steps)
    ensures Ordered(cfg, Played(cfg, steps))
  {
    if steps != [] {
      var s, step := Played(cfg, steps[..|steps| - 1]), steps[|steps| - 1];
      HonestFront(cfg, steps);
      OverlapKeepsOrder(cfg, steps[..|steps| - 1]);
      StepAccountsSlots(cfg, s, step);
      StepCounts(cfg, s, step);
      StepSpaces(cfg, s, step);
      StepTellsBound(cfg, s, step);
      StepAdmits(cfg, s, step);
      StepTracks(cfg, s, step);
      StepLinks(cfg, s, step);
      hide SlotsAccounted, CountTells, ClockTells, BoundTells, SendsSpaced, AllAdmitted, Tracked, Linked;
      hide HonestSteps, Stepped;
    }
  }

  // --- when the cooldown is kept ---

  ghost predicate KeepsBounds(bounds: seq<Record>, send: Sending) {
    forall i | 0 <= i < send.known && i < |bounds| :: send.now >= bounds[i].until
  }

  /** Sent below a bound that was recorded after the request's own cooldown check. */
  ghost predicate Overtaken(bounds: seq<Record>, send: Sending) {
    exists i | 0 <= i < |bounds| :: send.seen <= i < send.known && send.now < bounds[i].until
  }

  /** The request that recorded bound `j` was sent before bound `i` was recorded, so it was in flight
      together with the request that recorded `i`. */
  ghost predicate InFlightTogether(log: Log, i: nat, j: nat)
    requires i < j < |log.bounds|
  {
    log.bounds[j].send < |log.sends| && log.sends[log.bounds[j].send].known <= i
  }

  /** Two rate-limited requests in flight together made the bound fall from above the time of this
      request to below it, before its cooldown check. */
  ghost predicate SlippedUnder(log: Log, send: Sending) {
    exists i: nat, j: nat | i < j < |log.bounds| ::
      j < send.seen && InFlightTogether(log, i, j) && log.bounds[j].until <= send.now < log.bounds[i].until
  }

  /** Every send respects every bound recorded before it. */
  ghost predicate Respectful(log: Log) {
    forall k | 0 <= k < |log.sends| :: KeepsBounds(log.bounds, log.sends[k])
  }

  ghost predicate NoneOvertaken(log: Log) {
    forall k | 0 <= k < |log.sends| :: !Overtaken(log.bounds, log.sends[k])
  }

  ghost predicate NoneSlipped(log: Log) {
    forall k | 0 <= k < |log.sends| :: !SlippedUnder(log, log.sends[k])
  }

  /** The latest of the bounds seen that lies above a time. */
  lemma {:induction false} LatestAbove(bounds: seq<Record>, now: real, seen: nat, i: nat) returns (m: nat)
    requires i < seen <= |bounds| && now < bounds[i].until
    ensures i <= m < seen && now < bounds[m].until && (m + 1 < seen ==> bounds[m + 1].until <= now)
    decreases seen - i
  {
    m := i;
    if i + 1 < seen && now < bounds[i + 1].until {
      m := LatestAbove(bounds, now, seen, i + 1);
    }
  }

  lemma BelowUnknown(bounds: seq<Record>, send: Sending, i: nat)
    requires KeepsBounds(bounds, send) && i < |bounds| && send.now < bounds[i].until
    ensures send.known <= i
  {
  }

  /** The first send below a bound was overtaken or slipped under. */
  lemma SendKeeps(tickets: seq<Ticket>, log: Log, k: nat)
    requires k < |log.sends| && AllAdmitted(tickets, log) && Linked(log)
    requires forall m | 0 <= m < k :: KeepsBounds(log.bounds, log.sends[m])
    ensures var send := log.sends[k];
      KeepsBounds(log.bounds, send) || Overtaken(log.bounds, send) || SlippedUnder(log, send)
  {
    var send, bounds := log.sends[k], log.bounds;
    assert SentAfterCheck(log, send);
    if i: nat :| i < send.known && i < |bounds| && send.now < bounds[i].until {
      if i < send.seen {
        var m := LatestAbove(bounds, send.now, send.seen, i);
        assert Recorded(log, m + 1);
        var earlier := log.sends[bounds[m + 1].send];
        BelowUnknown(bounds, earlier, m);
        assert InFlightTogether(log, m, m + 1);
      }
    }
  }

  lemma {:induction false} SendsKeep(tickets: seq<Ticket>, log: Log, k: nat)
    requires k <= |log.sends| && AllAdmitted(tickets, log) && Linked(log) && NoneOvertaken(log) && NoneSlipped(log)
    ensures forall m | 0 <= m < k :: KeepsBounds(log.bounds, log.sends[m])
  {
    if k > 0 {
      SendsKeep(tickets, log, k - 1);
      SendKeeps(tickets, log, k - 1);
      hide KeepsBounds, AllAdmitted, Linked, Overtaken, SlippedUnder;
    }
  }

  /** In every interleaving each send respects every recorded bound exactly when no request is
      overtaken by a bound recorded after its check, and none is sent under a bound after two
      rate-limited requests in flight together made it fall. */
  lemma CooldownKeptExactly(cfg: Config, steps: seq<Step>)
    requires HonestSteps(cfg, steps)
    ensures var log := Played(cfg, steps).log;
      Respectful(log) <==> NoneOvertaken(log) && NoneSlipped(log)
  {
    OverlapKeepsOrder(cfg, steps);
    var s := Played(cfg, steps);
    if NoneOvertaken(s.log) && NoneSlipped(s.log) {
      SendsKeep(s.tickets, s.log, |s.log.sends|);
    }
    if Respectful(s.log) {
      forall k | 0 <= k < |s.log.sends|
        ensures !Overtaken(s.log.bounds, s.log.sends[k]) && !SlippedUnder(s.log, s.log.sends[k])
      {
        assert SentAfterCheck(s.log, s.log.sends[k]) && KeepsBounds(s.log.bounds, s.log.sends[k]);
      }
    }
    hide Played, HonestSteps, AllAdmitted, Linked, SlotsAccounted, CountTells, ClockTells, BoundTells, SendsSpaced;
  }

  // --- with one slot ---

  lemma {:induction false} NoneFlying(tickets: seq<Ticket>, t: nat)
    requires InFlight(tickets) == 0 && t < |tickets|
    ensures !tickets[t].phase.Flying?
  {
    if t < |tickets| - 1 {
      NoneFlying(tickets[..|tickets| - 1], t);
    }
  }

  /** A request in flight knows every bound recorded so far, and did when its own was recorded. */
  ghost predicate Alone(s: System) {
    && (forall t | 0 <= t < |s.tickets| && s.tickets[t].phase.Flying? ::
          KnowsAll(s.log, s.tickets[t].phase.send, |s.log.bounds|))
    && (forall j | 0 <= j < |s.log.bounds| :: KnowsAll(s.log, s.log.bounds[j].send, j))
  }

  ghost predicate KnowsAll(log: Log, send: nat, n: nat) {
    send < |log.sends| && log.sends[send].known == n
  }

  lemma StepAlone(cfg: Config, s: System, step: Step)
    requires Slots(cfg) == 1 && SlotsAccounted(cfg, s) && Alone(s)
    ensures Alone(Stepped(cfg, s, step))
  {
    var after := Stepped(cfg, s, step);
    if Starts(s, step) {
      forall t | 0 <= t < |s.tickets| ensures !s.tickets[t].phase.Flying? {
        NoneFlying(s.tickets, t);
      }
    } else if Finishes(s, step) {
      StepAccountsSlots(cfg, s, step);
      InFlightMoves(s.tickets, step.t, Finished);
      forall t | 0 <= t < |after.tickets| ensures !after.tickets[t].phase.Flying? {
        NoneFlying(after.tickets, t);
      }
    }
    hide InFlight;
  }

  lemma {:induction false} SerialIsAlone(cfg: Config, steps: seq<Step>)
    requires Slots(cfg) == 1 && HonestSteps(cfg, steps)
    ensures Alone(Played(cfg, steps))
  {
    if steps != [] {
      HonestFront(cfg, steps);
      OverlapKeepsOrder(cfg, steps[..|steps| - 1]);
      SerialIsAlone(cfg, steps[..|steps| - 1]);
      StepAlone(cfg, Played(cfg, steps[..|steps| - 1]), steps[|steps| - 1]);
      hide Alone, HonestSteps, Stepped, SlotsAccounted;
    }
  }

  /** With one slot the only way to send below a recorded bound is to have been overtaken: every
      send respects every bound exactly when no request is sent at a time earlier than a bound
      recorded after its own check. */
  lemma SerialCooldownExactly(cfg: Config, steps: seq<Step>)
    requires Slots(cfg) == 1 && HonestSteps(cfg, steps)
    ensures var log := Played(cfg, steps).log;
      Respectful(log) <==> NoneOvertaken(log)
  {
    CooldownKeptExactly(cfg, steps);
    SerialIsAlone(cfg, steps);
    var log := Played(cfg, steps).log;
    forall i: nat, j: nat | i < j < |log.bounds| ensures !InFlightTogether(log, i, j) {
      assert KnowsAll(log, log.bounds[j].send, j);
    }
    hide Played, Respectful, NoneOvertaken, HonestSteps;
  }

  // --- runs that break the cooldown ---

  lemma PlayedSnoc(cfg: Config, steps: seq<Step>, step: Step)
    ensures Played(cfg, steps + [step]) == Stepped(cfg, Played(cfg, steps), step)
  {
    assert (steps + [step])[..|steps|] == steps;
  }

  lemma HonestSnoc(cfg: Config, steps: seq<Step>, step: Step)
    requires HonestSteps(cfg, steps) && HonestStep(cfg, Played(cfg, steps), step)
    ensures HonestSteps(cfg, steps + [step])
  {
    var all := steps + [step];
    forall n | 0 <= n < |all| ensures HonestStep(cfg, Played(cfg, all[..n]), all[n]) {
      assert all[..n] == if n < |steps| then steps[..n] else steps;
      assert n < |steps| ==> HonestStep(cfg, Played(cfg, steps[..n]), steps[n]);
    }
  }

  const TWO_SLOTS: Config := Config(true, 0.0, 2)

  /** Two requests at time 0 pass the check together; the first is told to wait 30 seconds, and the
      second is sent anyway. */
  lemma RequestsAreOvertaken() returns (steps: seq<Step>)
    ensures HonestSteps(TWO_SLOTS, steps) && !NoneOvertaken(Played(TWO_SLOTS, steps).log)
  {
    hide HonestSteps, Played, NoneOvertaken;
    var s: System;
    steps, s := Beginning();
    steps, s := Next(steps, s, Arrive(0.0));
    steps, s := Next(steps, s, Arrive(0.0));
    assert s.tickets == [Ticket(0.0, 0, Waiting), Ticket(0.0, 0, Waiting)] && s.free == 2;
    steps, s := Next(steps, s, Start(0, 0.0, 0.0));
    assert s.tickets == [Ticket(0.0, 0, Flying(0)), Ticket(0.0, 0, Waiting)] && s.free == 1;
    steps, s := Next(steps, s, Finish(0, Fails(RateLimit, None)));
    assert s.tickets[1] == Ticket(0.0, 0, Waiting) && s.free == 2 && s.log.bounds == [Record(30.0, 0)];
    steps, s := Next(steps, s, Start(1, 1.0, 1.0));
    assert s.log.sends[1] == Sending(0.0, 1.0, 0, 1);
    OneOvertaken(s.log, 1, 0);
  }

  /** Two requests in flight together, told to wait 100 and 10 seconds, leave the bound at 10. */
  lemma BoundsFall() returns (steps: seq<Step>, s: System)
    ensures HonestSteps(TWO_SLOTS, steps) && s == Played(TWO_SLOTS, steps)
    ensures |s.tickets| == 2 && s.free == 2 && s.st.rateLimitedUntil == Some(10.0)
    ensures s.log.bounds == [Record(100.0, 0), Record(10.0, 1)]
    ensures s.log.sends == [Sending(0.0, 0.0, 0, 0), Sending(0.0, 0.0, 0, 0)] && s.st.lastRequest == 0.0
  {
    hide HonestSteps, Played;
    steps, s := Beginning();
    steps, s := Next(steps, s, Arrive(0.0));
    steps, s := Next(steps, s, Arrive(0.0));
    assert s.tickets == [Ticket(0.0, 0, Waiting), Ticket(0.0, 0, Waiting)] && s.free == 2;
    steps, s := Next(steps, s, Start(0, 0.0, 0.0));
    assert s.tickets == [Ticket(0.0, 0, Flying(0)), Ticket(0.0, 0, Waiting)] && s.free == 1;
    steps, s := Next(steps, s, Start(1, 0.0, 0.0));
    assert s.tickets == [Ticket(0.0, 0, Flying(0)), Ticket(0.0, 0, Flying(1))];
    steps, s := Next(steps, s, Finish(0, Fails(RateLimit, Some(100.0))));
    assert s.tickets == [Ticket(0.0, 0, Finished), Ticket(0.0, 0, Flying(1))] && s.log.bounds == [Record(100.0, 0)];
    steps, s := Next(steps, s, Finish(1, Fails(RateLimit, Some(10.0))));
  }

  /** A request at time 50 then slips under the 100 that the first was told. */
  lemma RequestsSlipUnder() returns (steps: seq<Step>)
    ensures HonestSteps(TWO_SLOTS, steps)
    ensures var log := Played(TWO_SLOTS, steps).log; NoneOvertaken(log) && !NoneSlipped(log)
  {
    hide HonestSteps, Played, NoneOvertaken, NoneSlipped;
    var s: System;
    steps, s := BoundsFall();
    steps, s := Next(steps, s, Arrive(50.0));
    assert s.tickets[2] == Ticket(50.0, 2, Waiting);
    steps, s := Next(steps, s, Start(2, 50.0, 50.0));
    assert s.log.sends == [Sending(0.0, 0.0, 0, 0), Sending(0.0, 0.0, 0, 0), Sending(50.0, 50.0, 2, 2)];
    OneSlipped(s.log, 2);
  }

  lemma OneOvertaken(log: Log, k: nat, i: nat)
    requires k < |log.sends| && i < |log.bounds|
    requires log.sends[k].seen <= i < log.sends[k].known && log.sends[k].now < log.bounds[i].until
    ensures !NoneOvertaken(log)
  {
    assert Overtaken(log.bounds, log.sends[k]);
  }

  lemma OneSlipped(log: Log, k: nat)
    requires k < |log.sends| && |log.bounds| == 2 && log.sends[k].seen == 2 && InFlightTogether(log, 0, 1)
    requires log.bounds[1].until <= log.sends[k].now < log.bounds[0].until
    requires forall j | 0 <= j < |log.sends| :: log.sends[j].known == log.sends[j].seen
    ensures NoneOvertaken(log) && !NoneSlipped(log)
  {
    assert SlippedUnder(log, log.sends[k]);
  }

  lemma Beginning() returns (steps: seq<Step>, s: System)
    ensures HonestSteps(TWO_SLOTS, steps) && s == Idle(TWO_SLOTS) == Played(TWO_SLOTS, steps)
  {
    steps, s := [], Idle(TWO_SLOTS);
  }

  lemma Next(steps: seq<Step>, s: System, step: Step) returns (more: seq<Step>, after: System)
    requires HonestSteps(TWO_SLOTS, steps) && Played(TWO_SLOTS, steps) == s && HonestStep(TWO_SLOTS, s, step)
    ensures HonestSteps(TWO_SLOTS, more) && Played(TWO_SLOTS, more) == after == Stepped(TWO_SLOTS, s, step)
  {
    more, after := steps + [step], Stepped(TWO_SLOTS, s, step);
    HonestSnoc(TWO_SLOTS, steps, step);
    PlayedSnoc(TWO_SLOTS, steps, step);
  }
}
