/** `fetch` of ingestion/http_client.py: the retry loop, its delays, bounded body reads and the
    bounded gunzip.  A script says what the transport does at each attempt. */
module HttpFetch {
  import opened Wrappers

  type Bytes = seq<nat>

  /** Exceptions of the transport; `OtherTransport` is one that `fetch` has no handler for. */
  datatype Transport =
    | TooManyRedirects | UnsupportedProtocol | ConnectFailed(tls: bool) | TimedOut | NetworkFailed | OtherTransport

  datatype ErrorKind =
    | RateLimited | TransientHttp | HttpStatus | OversizedResponse | ContentTypeError | DecompressionError
    | RedirectLimit | InvalidUrl | TlsError | ConnectionError | TimeoutError | InvalidResponse

  /** What `fetch` does in the end.  `Escapes` is an exception it does not classify. */
  datatype Outcome =
    | Returned(status: int, body: Bytes, retryCount: nat, degraded: bool)
    | FetchError(kind: ErrorKind, retryCount: nat)
    | Escapes
    | AssertionReached

  /** A non-empty Retry-After: seconds, a date so many seconds ahead, or neither. */
  datatype RetryAfter = Seconds(s: real) | Date(ahead: real) | Unparsable

  datatype ContentLength = Length(n: int) | NotANumber

  /** A body stream: chunks, then possibly an exception. */
  datatype Response = Response(
    status: int,
    retryAfter: Option<RetryAfter>,
    typeMatches: bool,
    length: Option<ContentLength>,
    chunks: seq<Bytes>,
    readFault: Option<Transport>,
    isGzip: bool,
    closeFault: Option<Transport>)

  datatype Exchange = Breaks(error: Transport) | Answers(response: Response)

  /** The gzip member: its content, then possibly an error that is an EOFError/OSError or not. */
  datatype GzipStream = GzipStream(content: Bytes, fault: Option<bool>)

  /** `maxRetries` is the smaller of the request's and the configuration's limit. */
  datatype Policy = Policy(
    maxRetries: nat,
    retryable: set<int>,
    onTimeout: bool,
    onConnection: bool,
    backoff: real,
    maxDelay: real,
    jitter: real)

  datatype Settings = Settings(
    policy: Policy,
    maxBytes: nat,
    isFeed: Bytes -> bool,
    gunzip: Bytes -> GzipStream,
    readSize: (nat, nat) -> nat,
    random: nat -> real)

  ghost predicate Valid(s: Settings) {
    && s.policy.backoff >= 0.0 && s.policy.jitter >= 0.0 && s.policy.maxDelay > 0.0
    && (forall k :: 0.0 <= s.random(k) < 1.0)
    && (forall at, most :: most > 0 ==> 0 < s.readSize(at, most) <= most)
  }

  // --- delays ---

  function Power2(n: nat): real {
    if n == 0 then 1.0 else 2.0 * Power2(n - 1)
  }

  function MinReal(a: real, b: real): real {
    if a <= b then a else b
  }

  function MaxReal(a: real, b: real): real {
    if a >= b then a else b
  }

  /** `_retry_delay`. */
  function RetryDelay(s: Settings, attempt: nat, retryAfter: Option<RetryAfter>): real {
    match retryAfter
    case Some(Seconds(x)) => MinReal(MaxReal(0.0, x), s.policy.maxDelay)
    case Some(Date(x)) => MinReal(MaxReal(0.0, x), s.policy.maxDelay)
    case Some(Unparsable) => MinReal(s.policy.backoff * Power2(attempt), s.policy.maxDelay)
    case None => MinReal(s.policy.backoff * Power2(attempt) + s.policy.jitter * s.random(attempt), s.policy.maxDelay)
  }

  lemma {:induction false} Power2Positive(n: nat)
    ensures Power2(n) >= 1.0
  {
    if n > 0 { Power2Positive(n - 1); }
  }

  lemma RetryDelayBounded(s: Settings, attempt: nat, retryAfter: Option<RetryAfter>)
    requires Valid(s)
    ensures 0.0 <= RetryDelay(s, attempt, retryAfter) <= s.policy.maxDelay
  {
    Power2Positive(attempt);
    assert s.policy.backoff * Power2(attempt) >= 0.0;
    assert s.policy.jitter * s.random(attempt) >= 0.0;
  }

  /** A Retry-After in seconds or as a date is obeyed within [0, maximum].  Without one that can be
      read the delay starts at the backoff and doubles with every attempt, up to the maximum; jitter
      is added only where there is none at all. */
  lemma RetryDelayLaws(s: Settings, attempt: nat, x: real)
    requires Valid(s)
    ensures RetryDelay(s, attempt, Some(Seconds(x))) == RetryDelay(s, attempt, Some(Date(x)))
    ensures 0.0 <= x <= s.policy.maxDelay ==> RetryDelay(s, attempt, Some(Seconds(x))) == x
    ensures x < 0.0 ==> RetryDelay(s, attempt, Some(Seconds(x))) == 0.0
    ensures x > s.policy.maxDelay ==> RetryDelay(s, attempt, Some(Seconds(x))) == s.policy.maxDelay
    ensures RetryDelay(s, 0, Some(Unparsable)) == MinReal(s.policy.backoff, s.policy.maxDelay)
    ensures RetryDelay(s, attempt + 1, Some(Unparsable))
         == MinReal(2.0 * RetryDelay(s, attempt, Some(Unparsable)), s.policy.maxDelay)
    ensures RetryDelay(s, attempt, None)
         == MinReal(RetryDelay(s, attempt, Some(Unparsable)) + s.policy.jitter * s.random(attempt), s.policy.maxDelay)
  {
    Power2Positive(attempt);
    var plain := s.policy.backoff * Power2(attempt);
    assert plain >= 0.0 && s.policy.jitter * s.random(attempt) >= 0.0;
    assert s.policy.backoff * Power2(attempt + 1) == 2.0 * plain;
    assert s.policy.backoff * Power2(0) == s.policy.backoff;
  }

  // --- bounded reads ---

  function Join(chunks: seq<Bytes>): Bytes {
    if chunks == [] then [] else Join(chunks[..|chunks| - 1]) + chunks[|chunks| - 1]
  }

  /** `Join` strings the chunks together: each stands behind all before it. */
  lemma {:induction false} JoinStrings(a: seq<Bytes>, b: seq<Bytes>, chunk: Bytes)
    ensures Join([]) == [] && Join([chunk]) == chunk && Join(a + b) == Join(a) + Join(b)
  {
    assert Join([chunk][..0]) == [];
    if b == [] {
      assert a + b == a && Join(a) + [] == Join(a);
    } else {
      JoinStrings(a, b[..|b| - 1], chunk);
      assert (a + b)[..|a + b| - 1] == a + b[..|b| - 1];
    }
  }

  datatype ReadResult = Read(body: Bytes) | TooLarge | Broke(error: Transport)

  /** The chunk loop reads the whole stream exactly when it fits and does not break; a stream that
      outgrows the bound is refused even if it would break later. */
  method ReadBody(chunks: seq<Bytes>, fault: Option<Transport>, maxBytes: nat) returns (r: ReadResult)
    ensures r == BodyOf(chunks, fault, maxBytes)
  {
    var total: nat, body: Bytes := 0, [];
    for i := 0 to |chunks|
      invariant body == Join(chunks[..i]) && total == |body| <= maxBytes
    {
      assert chunks[..i + 1][..i] == chunks[..i];
      total := total + |chunks[i]|;
      if total > maxBytes {
        JoinGrows(chunks, i + 1);
        return TooLarge;
      }
      body := body + chunks[i];
    }
    assert chunks[..|chunks|] == chunks;
    r := if fault.Some? then Broke(fault.value) else Read(body);
  }

  function BodyOf(chunks: seq<Bytes>, fault: Option<Transport>, maxBytes: nat): ReadResult {
    if |Join(chunks)| > maxBytes then TooLarge
    else if fault.Some? then Broke(fault.value)
    else Read(Join(chunks))
  }

  lemma {:induction false} JoinGrows(chunks: seq<Bytes>, n: nat)
    requires n <= |chunks|
    ensures |Join(chunks[..n])| <= |Join(chunks)|
    decreases |chunks|
  {
    if n < |chunks| {
      assert chunks[..|chunks| - 1][..n] == chunks[..n];
      JoinGrows(chunks[..|chunks| - 1], n);
    } else {
      assert chunks[..n] == chunks;
    }
  }

  datatype GunzipResult = Unzipped(body: Bytes) | UnzippedTooLarge | Corrupt | ZlibError

  function GunzipOf(stream: GzipStream, maxBytes: nat): GunzipResult {
    if |stream.content| > maxBytes then UnzippedTooLarge
    else match stream.fault
      case None => Unzipped(stream.content)
      case Some(caught) => if caught then Corrupt else ZlibError
  }

  /** `_decompress_gzip`: every read makes progress, and the loop returns the whole stream or an
      error; no more than one byte beyond the bound is ever held. */
  method DecompressGzip(s: Settings, stream: GzipStream, maxBytes: nat) returns (r: GunzipResult)
    requires Valid(s)
    ensures r == GunzipOf(stream, maxBytes)
  {
    var total: nat, body: Bytes := 0, [];
    while true
      invariant total == |body| <= maxBytes && total <= |stream.content| && body == stream.content[..total]
      decreases |stream.content| - total
    {
      var most := if 1048576 < maxBytes - total + 1 then 1048576 else maxBytes - total + 1;
      var left := |stream.content| - total;
      if left == 0 {
        if stream.fault.Some? {
          return if stream.fault.value then Corrupt else ZlibError;
        }
        break;
      }
      var wanted := s.readSize(total, most);
      var got := if wanted <= left then wanted else left;
      var chunk := stream.content[total..total + got];
      total := total + |chunk|;
      if total > maxBytes {
        return UnzippedTooLarge;
      }
      body := body + chunk;
    }
    assert stream.content[..total] == stream.content;
    r := Unzipped(body);
  }

  // --- one attempt ---

  /** How the response block ends, before its stream is closed. */
  datatype Ending = Continues | Ends(outcome: Outcome) | Throws(error: Transport)

  /** An ending with the sleeps taken and the request body the next attempt would send. */
  datatype Turn = Turn(ending: Ending, sleeps: seq<real>, body: Option<Bytes>)

  /** Length check and chunk loop of one response. */
  function Received(s: Settings, attempt: nat, body: Option<Bytes>, r: Response): Turn {
    if r.length == Some(NotANumber) then Turn(Ends(FetchError(InvalidResponse, attempt)), [], body)
    else if r.length.Some? && r.length.value.n > s.maxBytes
      then Turn(Ends(FetchError(OversizedResponse, attempt)), [], body)
    else match BodyOf(r.chunks, r.readFault, s.maxBytes)
      case TooLarge => Turn(Ends(FetchError(OversizedResponse, attempt)), [], body)
      case Broke(e) => Turn(Throws(e), [], body)
      case Read(data) =>
        if !r.typeMatches && !s.isFeed(data) then Turn(Ends(FetchError(ContentTypeError, attempt)), [], Some(data))
        else if !r.isGzip then Turn(Ends(Returned(r.status, data, attempt, !r.typeMatches)), [], Some(data))
        else match GunzipOf(s.gunzip(data), s.maxBytes)
          case Unzipped(plain) => Turn(Ends(Returned(r.status, plain, attempt, !r.typeMatches)), [], Some(plain))
          case UnzippedTooLarge => Turn(Ends(FetchError(OversizedResponse, 0)), [], Some(data))
          case Corrupt => Turn(Ends(FetchError(DecompressionError, 0)), [], Some(data))
          case ZlibError => Turn(Ends(Escapes), [], Some(data))
  }

  function Responded(s: Settings, attempt: nat, body: Option<Bytes>, r: Response): Turn {
    if r.status in s.policy.retryable then
      if attempt < s.policy.maxRetries then Turn(Continues, [RetryDelay(s, attempt, r.retryAfter)], body)
      else Turn(Ends(FetchError(if r.status == 429 then RateLimited else TransientHttp, attempt)), [], body)
    else if r.status == 304 then Turn(Ends(Returned(304, [], attempt, false)), [], body)
    else if !(200 <= r.status < 300) then Turn(Ends(FetchError(HttpStatus, attempt)), [], body)
    else Received(s, attempt, body, r)
  }

  predicate Retries(s: Settings, attempt: nat, e: Transport) {
    && attempt < s.policy.maxRetries
    && match e
       case ConnectFailed(tls) => !tls && s.policy.onConnection
       case TimedOut => s.policy.onTimeout
       case NetworkFailed => s.policy.onConnection
       case _ => false
  }

  function Classified(e: Transport, attempt: nat): Outcome {
    match e
    case TooManyRedirects => FetchError(RedirectLimit, attempt)
    case UnsupportedProtocol => FetchError(InvalidUrl, attempt)
    case ConnectFailed(tls) => FetchError(if tls then TlsError else ConnectionError, attempt)
    case TimedOut => FetchError(TimeoutError, attempt)
    case NetworkFailed => FetchError(ConnectionError, attempt)
    case OtherTransport => Escapes
  }

  /** The exception handlers around the attempt. */
  function Handled(s: Settings, attempt: nat, t: Turn): Turn {
    match t.ending
    case Throws(e) =>
      if Retries(s, attempt, e) then Turn(Continues, t.sleeps + [RetryDelay(s, attempt, None)], t.body)
      else t.(ending := Ends(Classified(e, attempt)))
    case _ => t
  }

  /** An exception while the stream is closed replaces whatever the block was doing. */
  function Closed(t: Turn, fault: Option<Transport>): Turn {
    if fault.Some? then t.(ending := Throws(fault.value)) else t
  }

  function Attempted(s: Settings, attempt: nat, body: Option<Bytes>, x: Exchange): Turn {
    match x
    case Breaks(e) => Handled(s, attempt, Turn(Throws(e), [], body))
    case Answers(r) => Handled(s, attempt, Closed(Responded(s, attempt, body, r), r.closeFault))
  }

  lemma AttemptedFacts(s: Settings, attempt: nat, body: Option<Bytes>, x: Exchange)
    requires Valid(s)
    ensures var t := Attempted(s, attempt, body, x);
      && (t.ending.Continues? || t.ending.Ends?)
      && (t.ending.Continues? || t.sleeps != [] ==> attempt < s.policy.maxRetries) && |t.sleeps| <= 2
      && (t.ending.Ends? ==> t.ending.outcome != AssertionReached)
      && (forall i | 0 <= i < |t.sleeps| :: 0.0 <= t.sleeps[i] <= s.policy.maxDelay)
  {
    forall k, ra ensures 0.0 <= RetryDelay(s, k, ra) <= s.policy.maxDelay { RetryDelayBounded(s, k, ra); }
  }

  // --- the loop ---

  /** What has been sent, slept and decided. */
  datatype Progress = Progress(
      sent: seq<Option<Bytes>>, sleeps: seq<real>, body: Option<Bytes>, outcome: Option<Outcome>)

  type Script = nat -> Exchange

  /** One attempt as a step from the attempt number and the body it sends. */
  type Stepper = (nat, Option<Bytes>) -> Turn

  function Stepping(s: Settings, script: Script): Stepper {
    (k: nat, b: Option<Bytes>) => Attempted(s, k, b, script(k))
  }

  /** The first `n` turns of the loop. */
  function Loop(step: Stepper, body: Option<Bytes>, n: nat): Progress {
    if n == 0 then Progress([], [], body, None)
    else
      var p := Loop(step, body, n - 1);
      if p.outcome.Some? then p
      else
        var t := step(n - 1, p.body);
        Progress(p.sent + [p.body], p.sleeps + t.sleeps, t.body,
                 if t.ending.Ends? then Some(t.ending.outcome) else None)
  }

  function Fetched(s: Settings, body: Option<Bytes>, script: Script): Progress {
    var p := Loop(Stepping(s, script), body, s.policy.maxRetries + 1);
    if p.outcome.Some? then p else p.(outcome := Some(AssertionReached))
  }

  method Fetch(s: Settings, requestBody: Option<Bytes>, script: Script) returns (p: Progress)
    requires Valid(s)
    ensures p == Fetched(s, requestBody, script)
  {
    hide Attempted, Valid;
    var sent: seq<Option<Bytes>>, sleeps: seq<real>, body := [], [], requestBody;
    var attempt: nat := 0;
    while attempt < s.policy.maxRetries + 1
      invariant attempt <= s.policy.maxRetries + 1
      invariant Progress(sent, sleeps, body, None) == Loop(Stepping(s, script), requestBody, attempt)
    {
      var t := Attempt(s, attempt, body, script(attempt));
      sent := sent + [body];
      sleeps, body := sleeps + t.sleeps, t.body;
      if t.ending.Ends? {
        p := Progress(sent, sleeps, body, Some(t.ending.outcome));
        OutcomeSticks(Stepping(s, script), requestBody, attempt + 1, s.policy.maxRetries + 1);
        return;
      }
      attempt := attempt + 1;
    }
    p := Progress(sent, sleeps, body, Some(AssertionReached));
  }

  /** One attempt as it runs: the response block, the closing of its stream, the handlers. */
  method Attempt(s: Settings, attempt: nat, body: Option<Bytes>, x: Exchange) returns (t: Turn)
    requires Valid(s)
    ensures t == Attempted(s, attempt, body, x)
  {
    match x {
      case Breaks(e) => t := Turn(Throws(e), [], body);
      case Answers(r) =>
        if r.status in s.policy.retryable {
          if attempt < s.policy.maxRetries {
            t := Turn(Continues, [RetryDelay(s, attempt, r.retryAfter)], body);
          } else {
            t := Turn(Ends(FetchError(if r.status == 429 then RateLimited else TransientHttp, attempt)), [], body);
          }
        } else if r.status == 304 {
          t := Turn(Ends(Returned(304, [], attempt, false)), [], body);
        } else if !(200 <= r.status < 300) {
          t := Turn(Ends(FetchError(HttpStatus, attempt)), [], body);
        } else {
          t := Receive(s, attempt, body, r);
        }
        if r.closeFault.Some? {
          t := t.(ending := Throws(r.closeFault.value));
        }
    }
    if t.ending.Throws? {
      var e := t.ending.error;
      if Retries(s, attempt, e) {
        t := Turn(Continues, t.sleeps + [RetryDelay(s, attempt, None)], t.body);
      } else {
        t := t.(ending := Ends(Classified(e, attempt)));
      }
    }
  }

  method Receive(s: Settings, attempt: nat, body: Option<Bytes>, r: Response) returns (t: Turn)
    requires Valid(s)
    ensures t == Received(s, attempt, body, r)
  {
    if r.length == Some(NotANumber) {
      return Turn(Ends(FetchError(InvalidResponse, attempt)), [], body);
    }
    if r.length.Some? && r.length.value.n > s.maxBytes {
      return Turn(Ends(FetchError(OversizedResponse, attempt)), [], body);
    }
    var read := ReadBody(r.chunks, r.readFault, s.maxBytes);
    if read.TooLarge? {
      return Turn(Ends(FetchError(OversizedResponse, attempt)), [], body);
    }
    if read.Broke? {
      return Turn(Throws(read.error), [], body);
    }
    var data := read.body;
    if !r.typeMatches && !s.isFeed(data) {
      return Turn(Ends(FetchError(ContentTypeError, attempt)), [], Some(data));
    }
    if !r.isGzip {
      return Turn(Ends(Returned(r.status, data, attempt, !r.typeMatches)), [], Some(data));
    }
    var plain := DecompressGzip(s, s.gunzip(data), s.maxBytes);
    match plain {
      case Unzipped(content) =>
        t := Turn(Ends(Returned(r.status, content, attempt, !r.typeMatches)), [], Some(content));
      case UnzippedTooLarge => t := Turn(Ends(FetchError(OversizedResponse, 0)), [], Some(data));
      case Corrupt => t := Turn(Ends(FetchError(DecompressionError, 0)), [], Some(data));
      case ZlibError => t := Turn(Ends(Escapes), [], Some(data));
    }
  }

  lemma {:induction false} OutcomeSticks(step: Stepper, body: Option<Bytes>, n: nat, m: nat)
    requires n <= m && Loop(step, body, n).outcome.Some?
    ensures Loop(step, body, m) == Loop(step, body, n)
    decreases m
  {
    if n < m { OutcomeSticks(step, body, n, m - 1); }
  }

  // --- bounds that hold for every script ---

  function Total(sleeps: seq<real>): real {
    if sleeps == [] then 0.0 else Total(sleeps[..|sleeps| - 1]) + sleeps[|sleeps| - 1]
  }

  lemma {:induction false} TotalBounded(sleeps: seq<real>, most: real)
    requires forall i | 0 <= i < |sleeps| :: 0.0 <= sleeps[i] <= most
    ensures 0.0 <= Total(sleeps) <= |sleeps| as real * most
  {
    if sleeps != [] {
      TotalBounded(sleeps[..|sleeps| - 1], most);
      assert |sleeps| as real * most == (|sleeps| - 1) as real * most + most;
    }
  }

  lemma TotalAtMost(sleeps: seq<real>, n: nat, most: real)
    requires |sleeps| <= n && most >= 0.0 && forall i | 0 <= i < |sleeps| :: 0.0 <= sleeps[i] <= most
    ensures 0.0 <= Total(sleeps) <= n as real * most
  {
    TotalBounded(sleeps, most);
    var rest := n - |sleeps|;
    assert n as real * most == |sleeps| as real * most + rest as real * most && rest as real * most >= 0.0;
  }

  ghost predicate BoundedTurn(t: Turn, maxDelay: real, maxBytes: nat) {
    && (t.ending.Continues? || t.ending.Ends?)
    && (t.ending.Ends? ==> t.ending.outcome != AssertionReached)
    && (t.ending.Ends? && t.ending.outcome.Returned? ==> |t.ending.outcome.body| <= maxBytes)
    && (forall i | 0 <= i < |t.sleeps| :: 0.0 <= t.sleeps[i] <= maxDelay) && |t.sleeps| <= 2
  }

  ghost predicate BoundedSteps(step: Stepper, maxRetries: nat, maxDelay: real, maxBytes: nat) {
    forall k: nat, b: Option<Bytes> ::
      && BoundedTurn(step(k, b), maxDelay, maxBytes)
      && (step(k, b).ending.Continues? || step(k, b).sleeps != [] ==> k < maxRetries)
  }

  lemma SteppingBounded(s: Settings, script: Script)
    requires Valid(s)
    ensures BoundedSteps(Stepping(s, script), s.policy.maxRetries, s.policy.maxDelay, s.maxBytes)
  {
    forall k: nat, b: Option<Bytes> ensures var t := Stepping(s, script)(k, b);
      && BoundedTurn(t, s.policy.maxDelay, s.maxBytes)
      && (t.ending.Continues? || t.sleeps != [] ==> k < s.policy.maxRetries)
    {
      AttemptedFacts(s, k, b, script(k));
      ReturnedFits(s, k, b, script(k));
    }
  }

  lemma ReturnedFits(s: Settings, attempt: nat, body: Option<Bytes>, x: Exchange)
    requires Valid(s)
    ensures var t := Attempted(s, attempt, body, x);
      t.ending.Ends? && t.ending.outcome.Returned? ==> |t.ending.outcome.body| <= s.maxBytes
  {
  }

  lemma {:induction false} LoopBounded(
      step: Stepper, body: Option<Bytes>, n: nat, maxRetries: nat, maxDelay: real, maxBytes: nat)
    requires BoundedSteps(step, maxRetries, maxDelay, maxBytes) && n <= maxRetries + 1
    ensures var p := Loop(step, body, n);
      && (forall i | 0 <= i < |p.sleeps| :: 0.0 <= p.sleeps[i] <= maxDelay)
      && (p.outcome.Some? ==> p.outcome.value != AssertionReached)
      && (p.outcome.Some? && p.outcome.value.Returned? ==> |p.outcome.value.body| <= maxBytes)
      && |p.sent| <= n && (n > 0 ==> |p.sent| > 0)
      && |p.sleeps| <= 2 * n && |p.sleeps| <= 2 * maxRetries
      && (p.outcome.None? ==> |p.sent| == n && n <= maxRetries)
  {
    if n > 0 {
      LoopBounded(step, body, n - 1, maxRetries, maxDelay, maxBytes);
      assert BoundedTurn(step(n - 1, Loop(step, body, n - 1).body), maxDelay, maxBytes);
    }
  }

  /** Whatever the transport does: at least one and at most retries + 1 requests, at most two sleeps
      a retry and none longer than the maximum, the final assertion is never reached, and no body
      above the limit is returned, unzipped or not. */
  lemma FetchBounded(s: Settings, body: Option<Bytes>, script: Script)
    requires Valid(s)
    ensures var p := Fetched(s, body, script);
      && 1 <= |p.sent| <= s.policy.maxRetries + 1
      && p.outcome.Some? && p.outcome.value != AssertionReached
      && |p.sleeps| <= 2 * s.policy.maxRetries
      && 0.0 <= Total(p.sleeps) <= (2 * s.policy.maxRetries) as real * s.policy.maxDelay
      && (p.outcome.value.Returned? ==> |p.outcome.value.body| <= s.maxBytes)
  {
    hide Attempted, Loop, BoundedSteps, Total;
    SteppingBounded(s, script);
    LoopBounded(Stepping(s, script), body, s.policy.maxRetries + 1, s.policy.maxRetries, s.policy.maxDelay, s.maxBytes);
    TotalAtMost(Fetched(s, body, script).sleeps, 2 * s.policy.maxRetries, s.policy.maxDelay);
  }

  // --- what a fetch returns, why it fails, how long it waits ---

  /** The body of such an answer is read. */
  predicate HasBody(s: Settings, r: Response) {
    r.status !in s.policy.retryable && 200 <= r.status < 300
  }

  /** Neither the declared length nor the stream exceeds the limit. */
  predicate Within(s: Settings, r: Response) {
    (r.length.Some? ==> r.length.value.Length? && r.length.value.n <= s.maxBytes) && |Join(r.chunks)| <= s.maxBytes
  }

  predicate Whole(s: Settings, r: Response) {
    HasBody(s, r) && Within(s, r) && r.readFault.None? && r.closeFault.None?
  }

  predicate Accepted(s: Settings, r: Response) {
    r.typeMatches || s.isFeed(Join(r.chunks))
  }

  /** The exception that reaches the handlers of one attempt; one raised on closing wins. */
  function Thrown(s: Settings, x: Exchange): Option<Transport> {
    match x
    case Breaks(e) => Some(e)
    case Answers(r) =>
      if r.closeFault.Some? then r.closeFault else if HasBody(s, r) && Within(s, r) then r.readFault else None
  }

  /** Another request follows. */
  predicate Retried(s: Settings, k: nat, x: Exchange) {
    && k < s.policy.maxRetries
    && match Thrown(s, x)
       case Some(e) =>
         || (e == TimedOut && s.policy.onTimeout)
         || ((e == NetworkFailed || e == ConnectFailed(false)) && s.policy.onConnection)
       case None => x.Answers? && x.response.status in s.policy.retryable
  }

  /** Exactly when attempt `k` returns this: a 304 is empty, every other body is what the stream, or
      the gzip member in it, holds; it is degraded when its declared type did not match. */
  predicate ReturnsAs(s: Settings, k: nat, x: Exchange, status: int, body: Bytes, n: nat, degraded: bool) {
    && x.Answers? && x.response.closeFault.None? && n == k && status == x.response.status
    && var r := x.response; var data := Join(r.chunks);
    || (status == 304 && status !in s.policy.retryable && body == [] && !degraded)
    || (&& Whole(s, r) && Accepted(s, r) && degraded == !r.typeMatches
        && if r.isGzip then |body| <= s.maxBytes && s.gunzip(data) == GzipStream(body, None) else body == data)
  }

  /** Exactly when it raises this for an exception of the transport. */
  predicate BreaksAs(e: Transport, kind: ErrorKind) {
    match kind
    case RedirectLimit => e == TooManyRedirects
    case InvalidUrl => e == UnsupportedProtocol
    case TlsError => e == ConnectFailed(true)
    case ConnectionError => e == NetworkFailed || e == ConnectFailed(false)
    case TimeoutError => e == TimedOut
    case _ => false
  }

  /** Exactly when it raises this for an answer. */
  predicate RefusesAs(s: Settings, k: nat, r: Response, kind: ErrorKind, n: nat) {
    var data := Join(r.chunks);
    match kind
    case RateLimited => n == k && r.status in s.policy.retryable && r.status == 429
    case TransientHttp => n == k && r.status in s.policy.retryable && r.status != 429
    case HttpStatus => n == k && r.status !in s.policy.retryable && r.status != 304 && !(200 <= r.status < 300)
    case InvalidResponse => n == k && HasBody(s, r) && r.length == Some(NotANumber)
    case OversizedResponse =>
      || (n == k && HasBody(s, r) && r.length != Some(NotANumber) && !Within(s, r))
      || (n == 0 && Whole(s, r) && Accepted(s, r) && r.isGzip && |s.gunzip(data).content| > s.maxBytes)
    case ContentTypeError => n == k && Whole(s, r) && !Accepted(s, r)
    case DecompressionError => n == 0 && Undone(s, r, true)
    case _ => false
  }

  /** The gzip member breaks off within the limit. */
  predicate Undone(s: Settings, r: Response, caught: bool) {
    && Whole(s, r) && Accepted(s, r) && r.isGzip
    && var stream := s.gunzip(Join(r.chunks)); |stream.content| <= s.maxBytes && stream.fault == Some(caught)
  }

  predicate EndsAs(s: Settings, k: nat, x: Exchange, o: Outcome) {
    match o
    case Returned(status, body, n, degraded) => ReturnsAs(s, k, x, status, body, n, degraded)
    case FetchError(kind, n) =>
      (match Thrown(s, x)
       case Some(e) => n == k && BreaksAs(e, kind)
       case None => x.Answers? && RefusesAs(s, k, x.response, kind, n))
    case Escapes =>
      (match Thrown(s, x)
       case Some(e) => e == OtherTransport
       case None => x.Answers? && Undone(s, x.response, false))
    case AssertionReached => false
  }

  lemma ReceivedReturns(s: Settings, k: nat, body: Option<Bytes>, r: Response, o: Outcome)
    requires HasBody(s, r) && r.closeFault.None?
    ensures Thrown(s, Answers(r)).None? ==>
              (Received(s, k, body, r).ending == Ends(o) <==> EndsAs(s, k, Answers(r), o))
    ensures Thrown(s, Answers(r)).Some? ==> Received(s, k, body, r).ending == Throws(Thrown(s, Answers(r)).value)
  {
  }

  lemma RespondedEnds(s: Settings, k: nat, body: Option<Bytes>, r: Response, o: Outcome)
    requires r.closeFault.None?
    ensures var t := Responded(s, k, body, r);
      && (Thrown(s, Answers(r)).Some? ==> t.ending == Throws(Thrown(s, Answers(r)).value))
      && (Thrown(s, Answers(r)).None? ==>
            && !t.ending.Throws? && (t.ending.Continues? <==> Retried(s, k, Answers(r)))
            && (!Retried(s, k, Answers(r)) ==> (t.ending == Ends(o) <==> EndsAs(s, k, Answers(r), o))))
  {
    if HasBody(s, r) {
      ReceivedReturns(s, k, body, r, o);
      hide Received, EndsAs;
      if Thrown(s, Answers(r)).None? { ReceivedEnds(s, k, body, r); }
    }
  }

  lemma ReceivedEnds(s: Settings, k: nat, body: Option<Bytes>, r: Response)
    requires HasBody(s, r) && Thrown(s, Answers(r)).None?
    ensures Received(s, k, body, r).ending.Ends?
  {
  }

  /** One attempt: it is followed by another exactly when it is retried, and otherwise ends in `o`
      exactly when its exchange says so. */
  lemma AttemptEndsExactly(s: Settings, k: nat, body: Option<Bytes>, x: Exchange, o: Outcome)
    ensures Attempted(s, k, body, x).ending.Continues? <==> Retried(s, k, x)
    ensures !Retried(s, k, x) ==> (Attempted(s, k, body, x).ending == Ends(o) <==> EndsAs(s, k, x, o))
  {
    if x.Answers? && x.response.closeFault.None? {
      RespondedEnds(s, k, body, x.response, o);
      hide Responded, HasBody, Within, Whole;
    }
  }

  /** The loop goes on past every attempt but the last, and ends as that one does. */
  lemma {:induction false} LoopEnds(step: Stepper, body: Option<Bytes>, n: nat)
    requires forall k: nat, b: Option<Bytes> :: step(k, b).ending.Continues? || step(k, b).ending.Ends?
    ensures var p := Loop(step, body, n);
      && |p.sent| <= n && (p.outcome.None? ==> |p.sent| == n)
      && (forall k | 0 <= k < |p.sent| && (p.outcome.None? || k < |p.sent| - 1) ::
            step(k, p.sent[k]).ending.Continues?)
      && (p.outcome.Some? ==>
            |p.sent| > 0 && step(|p.sent| - 1, p.sent[|p.sent| - 1]).ending == Ends(p.outcome.value))
  {
    if n > 0 {
      LoopEnds(step, body, n - 1);
    }
  }

  lemma FetchTurns(s: Settings, body: Option<Bytes>, script: Script)
    requires Valid(s)
    ensures var p := Fetched(s, body, script); var last := |p.sent| - 1;
      && last >= 0 && p.outcome.Some?
      && (forall k: nat | k < last :: Attempted(s, k, p.sent[k], script(k)).ending.Continues?)
      && Attempted(s, last, p.sent[last], script(last)).ending == Ends(p.outcome.value)
  {
    var step, n := Stepping(s, script), s.policy.maxRetries + 1;
    SteppingBounded(s, script);
    LoopBounded(step, body, n, s.policy.maxRetries, s.policy.maxDelay, s.maxBytes);
    forall k: nat, b: Option<Bytes> ensures step(k, b).ending.Continues? || step(k, b).ending.Ends? {
      AttemptedFacts(s, k, b, script(k));
    }
    LoopEnds(step, body, n);
    var p := Fetched(s, body, script);
    hide Attempted, Loop, Valid, BoundedSteps, Stepping, Fetched;
    forall k: nat | k < |p.sent| ensures step(k, p.sent[k]) == Attempted(s, k, p.sent[k], script(k)) {
      StepIs(s, script, k, p.sent[k]);
    }
  }

  lemma StepIs(s: Settings, script: Script, k: nat, b: Option<Bytes>)
    ensures Stepping(s, script)(k, b) == Attempted(s, k, b, script(k))
  {
  }

  /** For every script: a request is sent as long as the one before is to be retried, and the outcome is
      exactly what the exchange of the last one calls for. */
  lemma FetchEndsExactly(s: Settings, body: Option<Bytes>, script: Script)
    requires Valid(s)
    ensures var p := Fetched(s, body, script); var last := |p.sent| - 1;
      && last >= 0 && p.outcome.Some?
      && (forall k: nat | k <= last :: Retried(s, k, script(k)) <==> k < last)
      && (forall o :: p.outcome == Some(o) <==> EndsAs(s, last, script(last), o))
  {
    FetchTurns(s, body, script);
    var p := Fetched(s, body, script);
    var last := |p.sent| - 1;
    hide Attempted, Fetched, Retried, EndsAs, Valid;
    forall k: nat | k <= last ensures Retried(s, k, script(k)) <==> k < last {
      AttemptEndsExactly(s, k, p.sent[k], script(k), AssertionReached);
    }
    forall o ensures p.outcome == Some(o) <==> EndsAs(s, last, script(last), o) {
      AttemptEndsExactly(s, last, p.sent[last], script(last), o);
    }
  }

  /** In particular a plain answer that is in order is returned whole, once it is reached. */
  lemma GoodAnswerIsReturned(s: Settings, body: Option<Bytes>, script: Script, k: nat)
    requires Valid(s) && k < |Fetched(s, body, script).sent| && script(k).Answers?
    requires var r := script(k).response; Whole(s, r) && Accepted(s, r) && !r.isGzip
    ensures var r := script(k).response;
      Fetched(s, body, script).outcome == Some(Returned(r.status, Join(r.chunks), k, !r.typeMatches))
  {
    FetchEndsExactly(s, body, script);
    var p, r := Fetched(s, body, script), script(k).response;
    hide Fetched;
    assert !Retried(s, k, script(k));
    assert EndsAs(s, k, script(k), Returned(r.status, Join(r.chunks), k, !r.typeMatches));
  }

  /** The sleeps of one attempt: for a retryable status as its Retry-After says, and for an exception
      that is retried the plain backoff. */
  function SleepsAt(s: Settings, k: nat, x: Exchange): seq<real> {
    (if k < s.policy.maxRetries && x.Answers? && x.response.status in s.policy.retryable
     then [RetryDelay(s, k, x.response.retryAfter)] else [])
    + (if Thrown(s, x).Some? && Retried(s, k, x) then [RetryDelay(s, k, None)] else [])
  }

  function SleepsOf(s: Settings, script: Script, n: nat): seq<real> {
    if n == 0 then [] else SleepsOf(s, script, n - 1) + SleepsAt(s, n - 1, script(n - 1))
  }

  lemma ReceivedSleepsNot(s: Settings, k: nat, body: Option<Bytes>, r: Response)
    ensures Received(s, k, body, r).sleeps == []
    ensures HasBody(s, r) && r.closeFault.None? ==>
      (match Thrown(s, Answers(r))
       case Some(e) => Received(s, k, body, r).ending == Throws(e)
       case None => Received(s, k, body, r).ending.Ends?)
  {
  }

  /** Sleeping for an exception comes after the sleep for a status. */
  lemma HandledSleeps(s: Settings, k: nat, t: Turn)
    ensures Handled(s, k, t).sleeps
         == t.sleeps + if t.ending.Throws? && Retries(s, k, t.ending.error) then [RetryDelay(s, k, None)] else []
  {
    hide RetryDelay, Retries;
    assert t.sleeps + [] == t.sleeps;
  }

  lemma BreakSleeps(s: Settings, k: nat, body: Option<Bytes>, e: Transport)
    ensures Attempted(s, k, body, Breaks(e)).sleeps == SleepsAt(s, k, Breaks(e))
  {
    HandledSleeps(s, k, Turn(Throws(e), [], body));
    hide Handled, RetryDelay;
  }

  lemma AnswerSleeps(s: Settings, k: nat, body: Option<Bytes>, r: Response)
    ensures Attempted(s, k, body, Answers(r)).sleeps == SleepsAt(s, k, Answers(r))
  {
    var t := Closed(Responded(s, k, body, r), r.closeFault);
    HandledSleeps(s, k, t);
    ReceivedSleepsNot(s, k, body, r);
    hide Received, RetryDelay, Handled, Within;
    assert t.sleeps == if k < s.policy.maxRetries && r.status in s.policy.retryable
                       then [RetryDelay(s, k, r.retryAfter)] else [];
    assert match Thrown(s, Answers(r)) case Some(e) => t.ending == Throws(e) case None => !t.ending.Throws?;
    hide Responded, Closed, Thrown;
  }

  lemma AttemptSleepsExactly(s: Settings, k: nat, body: Option<Bytes>, x: Exchange)
    ensures Attempted(s, k, body, x).sleeps == SleepsAt(s, k, x)
  {
    hide Attempted, SleepsAt;
    match x
    case Breaks(e) => BreakSleeps(s, k, body, e);
    case Answers(r) => AnswerSleeps(s, k, body, r);
  }

  function Strung(at: nat -> seq<real>, n: nat): seq<real> {
    if n == 0 then [] else Strung(at, n - 1) + at(n - 1)
  }

  lemma {:induction false} LoopSleeps(step: Stepper, at: nat -> seq<real>, body: Option<Bytes>, n: nat)
    requires forall k: nat, b: Option<Bytes> :: step(k, b).sleeps == at(k)
    ensures var p := Loop(step, body, n);
      p.sleeps == Strung(at, |p.sent|) && |p.sent| <= n && (p.outcome.None? ==> |p.sent| == n)
  {
    if n > 0 {
      LoopSleeps(step, at, body, n - 1);
    }
  }

  lemma {:induction false} SleepsStrung(s: Settings, script: Script, at: nat -> seq<real>, n: nat)
    requires forall k: nat :: at(k) == SleepsAt(s, k, script(k))
    ensures SleepsOf(s, script, n) == Strung(at, n)
  {
    if n > 0 {
      SleepsStrung(s, script, at, n - 1);
    }
  }

  /** For every script the sleeps are those of the requests sent, in order. */
  lemma SleepsExactly(s: Settings, body: Option<Bytes>, script: Script)
    ensures var p := Fetched(s, body, script); p.sleeps == SleepsOf(s, script, |p.sent|)
  {
    var step, at := Stepping(s, script), (k: nat) => SleepsAt(s, k, script(k));
    hide Attempted, SleepsAt, Loop;
    forall k: nat, b: Option<Bytes> ensures step(k, b).sleeps == at(k) {
      AttemptSleepsExactly(s, k, b, script(k));
    }
    LoopSleeps(step, at, body, s.policy.maxRetries + 1);
    SleepsStrung(s, script, at, |Fetched(s, body, script).sent|);
  }

  // --- when the reported retries are the sleeps taken ---

  /** A retryable status whose stream then fails to close: the attempt sleeps for the status, and
      the exception starts a second round of handling. */
  predicate Doubled(s: Settings, attempt: nat, x: Exchange) {
    && x.Answers? && x.response.status in s.policy.retryable && attempt < s.policy.maxRetries
    && x.response.closeFault.Some?
  }

  /** A failed gunzip whose stream closes quietly: the error it raises says nothing of retries. */
  predicate Forgets(s: Settings, attempt: nat, x: Exchange) {
    && x.Answers? && x.response.closeFault.None?
    && var t := Responded(s, attempt, None, x.response);
       x.response.isGzip && t.body.Some? && (x.response.typeMatches || s.isFeed(Join(x.response.chunks)))
       && !GunzipOf(s.gunzip(Join(x.response.chunks)), s.maxBytes).Unzipped?
  }

  /** An outcome that reports a number of retries. */
  predicate Counted(o: Outcome) {
    o.Returned? || o.FetchError?
  }

  /** What one attempt adds to the sleeps and to the report. */
  ghost predicate CountedTurn(t: Turn, attempt: nat, doubled: bool, forgets: bool) {
    && (t.ending.Continues? || t.ending.Ends?)
    && |t.sleeps| == (if t.ending.Continues? then 1 else 0) + (if doubled then 1 else 0)
    && (t.ending.Ends? && Counted(t.ending.outcome) ==>
          t.ending.outcome.retryCount == if forgets then 0 else attempt)
  }

  lemma AttemptCounts(s: Settings, attempt: nat, body: Option<Bytes>, x: Exchange)
    ensures CountedTurn(Attempted(s, attempt, body, x), attempt, Doubled(s, attempt, x), Forgets(s, attempt, x))
  {
  }

  ghost predicate CountedSteps(step: Stepper, doubled: nat -> bool, forgets: nat -> bool) {
    forall k: nat, b: Option<Bytes> :: CountedTurn(step(k, b), k, doubled(k), forgets(k))
  }

  /** How many of the first `n` attempts were doubled. */
  function Doubles(doubled: nat -> bool, n: nat): nat {
    if n == 0 then 0 else Doubles(doubled, n - 1) + if doubled(n - 1) then 1 else 0
  }

  lemma {:induction false} NoDoubles(doubled: nat -> bool, n: nat)
    ensures Doubles(doubled, n) == 0 <==> forall k: nat | k < n :: !doubled(k)
  {
    if n > 0 {
      NoDoubles(doubled, n - 1);
    }
  }

  lemma {:induction false} LoopCounts(
      step: Stepper, doubled: nat -> bool, forgets: nat -> bool, body: Option<Bytes>, n: nat)
    requires CountedSteps(step, doubled, forgets)
    ensures var p := Loop(step, body, n);
      && |p.sleeps| + (if p.outcome.Some? then 1 else 0) == |p.sent| + Doubles(doubled, |p.sent|)
      && (p.outcome.None? ==> |p.sent| == n) && (p.outcome.Some? ==> |p.sent| > 0)
      && (p.outcome.Some? && Counted(p.outcome.value) ==>
            p.outcome.value.retryCount == if forgets(|p.sent| - 1) then 0 else |p.sent| - 1)
  {
    if n > 0 {
      LoopCounts(step, doubled, forgets, body, n - 1);
      var p := Loop(step, body, n - 1);
      assert CountedTurn(step(n - 1, p.body), n - 1, doubled(n - 1), forgets(n - 1));
    }
  }

  /** For every script: a reported retry count is the number of sleeps taken exactly when no attempt
      was doubled, and the last one is not a failed gunzip unless it is the only one. */
  lemma RetriesReportedExactly(s: Settings, body: Option<Bytes>, script: Script)
    requires Valid(s)
    ensures var p := Fetched(s, body, script);
      && p.outcome.Some? && |p.sent| > 0
      && (p.outcome.value.Returned? || p.outcome.value.FetchError? ==>
            (p.outcome.value.retryCount == |p.sleeps|
             <==> (forall k: nat | k < |p.sent| :: !Doubled(s, k, script(k)))
                  && (Forgets(s, |p.sent| - 1, script(|p.sent| - 1)) ==> |p.sent| == 1)))
  {
    hide Attempted, Doubled, Forgets, Loop, Valid, Doubles, CountedTurn;
    var step, n := Stepping(s, script), s.policy.maxRetries + 1;
    var doubled, forgets := (k: nat) => Doubled(s, k, script(k)), (k: nat) => Forgets(s, k, script(k));
    SteppingBounded(s, script);
    LoopBounded(step, body, n, s.policy.maxRetries, s.policy.maxDelay, s.maxBytes);
    forall k: nat, b: Option<Bytes> ensures CountedTurn(step(k, b), k, doubled(k), forgets(k)) {
      AttemptCounts(s, k, b, script(k));
    }
    LoopCounts(step, doubled, forgets, body, n);
    var p := Fetched(s, body, script);
    NoDoubles(doubled, |p.sent|);
    assert forall k: nat :: doubled(k) == Doubled(s, k, script(k));
  }

  /** Such a script exists: a retried 503 whose stream times out on closing, then a 404, takes two
      sleeps and reports one retry. */
  lemma RetrySleepsTwice(s: Settings) returns (script: Script)
    requires Valid(s) && s.policy.maxRetries > 0 && s.policy.onTimeout
    requires 503 in s.policy.retryable && 404 !in s.policy.retryable
    ensures var p := Fetched(s, None, script); |p.sleeps| == 2 && p.outcome == Some(FetchError(HttpStatus, 1))
  {
    var busy := Answers(Response(503, None, true, None, [], None, false, Some(TimedOut)));
    var gone := Answers(Response(404, None, true, None, [], None, false, None));
    script := (k: nat) => if k == 0 then busy else gone;
    var step := Stepping(s, script);
    var first, second := step(0, None), step(1, None);
    assert first == Attempted(s, 0, None, busy) && second == Attempted(s, 1, None, gone);
    assert first.ending == Continues && |first.sleeps| == 2 && first.body == None;
    assert second == Turn(Ends(FetchError(HttpStatus, 1)), [], None);
    hide Attempted;
    assert Loop(step, None, 0) == Progress([], [], None, None);
    assert Loop(step, None, 1) == Progress([None], first.sleeps, None, None);
    assert Loop(step, None, 2).outcome == Some(FetchError(HttpStatus, 1)) && |Loop(step, None, 2).sleeps| == 2;
    OutcomeSticks(step, None, 2, s.policy.maxRetries + 1);
  }

  // --- when request bodies stay the same ---

  /** The bytes an answer leaves in the variable that also holds the request body. */
  function LeftBehind(s: Settings, x: Exchange): Option<Bytes> {
    if x.Breaks? then None
    else
      var r := x.response;
      if r.status in s.policy.retryable || r.status == 304 || !(200 <= r.status < 300) then None
      else Received(s, 0, None, r).body
  }

  lemma BodyAfterAttempt(s: Settings, attempt: nat, body: Option<Bytes>, x: Exchange)
    ensures Attempted(s, attempt, body, x).body == if LeftBehind(s, x).Some? then LeftBehind(s, x) else body
  {
  }

  /** The body after a step is what the answer left behind, or the one before. */
  ghost predicate LeavesBehind(step: Stepper, left: nat -> Option<Bytes>) {
    forall k: nat, b: Option<Bytes> :: step(k, b).body == if left(k).Some? then left(k) else b
  }

  /** Each request carries what the attempt before it left behind, or its body. */
  ghost predicate Handed(left: nat -> Option<Bytes>, body: Option<Bytes>, sent: seq<Option<Bytes>>) {
    && (sent != [] ==> sent[0] == body)
    && forall i | 0 <= i < |sent| - 1 :: sent[i + 1] == if left(i).Some? then left(i) else sent[i]
  }

  lemma {:induction false} LoopHands(step: Stepper, left: nat -> Option<Bytes>, body: Option<Bytes>, n: nat)
    requires LeavesBehind(step, left)
    ensures var p := Loop(step, body, n);
      && Handed(left, body, p.sent) && |p.sent| <= n && (p.outcome.None? ==> |p.sent| == n)
      && (p.outcome.None? ==> Handed(left, body, p.sent + [p.body]))
  {
    if n > 0 {
      LoopHands(step, left, body, n - 1);
    }
  }

  lemma {:induction false} HandedUnchanged(
      left: nat -> Option<Bytes>, body: Option<Bytes>, sent: seq<Option<Bytes>>, n: nat)
    requires Handed(left, body, sent) && n <= |sent|
    requires forall k | 0 <= k < |sent| - 1 :: left(k).Some? ==> left(k) == body
    ensures forall i | 0 <= i < n :: sent[i] == body
  {
    if n > 1 {
      HandedUnchanged(left, body, sent, n - 1);
      assert sent[n - 2 + 1] == if left(n - 2).Some? then left(n - 2) else sent[n - 2];
    }
  }

  /** For every script: all requests carry the same body exactly when no retried attempt had read
      a response in full, other than one equal to the request body. */
  lemma BodiesIdenticalExactly(s: Settings, body: Option<Bytes>, script: Script)
    requires Valid(s)
    ensures var sent := Fetched(s, body, script).sent;
      (forall i | 0 <= i < |sent| :: sent[i] == body)
      <==> (forall k | 0 <= k < |sent| - 1 :: LeftBehind(s, script(k)).Some? ==> LeftBehind(s, script(k)) == body)
  {
    hide Attempted, LeftBehind, Loop;
    var step, left := Stepping(s, script), (k: nat) => LeftBehind(s, script(k));
    forall k: nat, b: Option<Bytes> ensures step(k, b).body == if left(k).Some? then left(k) else b {
      BodyAfterAttempt(s, k, b, script(k));
    }
    LoopHands(step, left, body, s.policy.maxRetries + 1);
    var sent := Fetched(s, body, script).sent;
    HandedExactly(left, body, sent);
    assert forall k | 0 <= k < |sent| - 1 :: left(k) == LeftBehind(s, script(k));
  }

  lemma HandedExactly(left: nat -> Option<Bytes>, body: Option<Bytes>, sent: seq<Option<Bytes>>)
    requires Handed(left, body, sent)
    ensures (forall i | 0 <= i < |sent| :: sent[i] == body)
       <==> (forall k | 0 <= k < |sent| - 1 :: left(k).Some? ==> left(k) == body)
  {
    if forall k | 0 <= k < |sent| - 1 :: left(k).Some? ==> left(k) == body {
      HandedUnchanged(left, body, sent, |sent|);
    } else {
      var k :| 0 <= k < |sent| - 1 && left(k).Some? && left(k) != body;
      assert sent[k + 1] == left(k);
    }
  }

  /** Such a script exists: the response is read, closing its stream times out, and the retry
      sends the bytes of the response as its request body. */
  lemma ReadResponseIsResent(s: Settings) returns (body: Option<Bytes>, script: Script)
    requires Valid(s) && s.policy.maxRetries > 0 && s.policy.onTimeout && s.maxBytes > 0 && 200 !in s.policy.retryable
    ensures var p := Fetched(s, body, script); |p.sent| > 1 && p.sent[0] != p.sent[1]
  {
    body := Some([7]);
    var r := Response(200, None, true, None, [[8]], None, false, Some(TimedOut));
    script := (k: nat) => Answers(r);
    assert Join([[8]]) == Join([]) + [8] == [8];
    var step := Stepping(s, script);
    assert BodyOf(r.chunks, r.readFault, s.maxBytes) == Read([8]);
    assert Received(s, 0, body, r).body == Some([8]) && Retries(s, 0, TimedOut);
    var t := step(0, body);
    assert t == Attempted(s, 0, body, script(0));
    assert script(0) == Answers(r);
    assert Responded(s, 0, body, r) == Received(s, 0, body, r);
    var c := Closed(Received(s, 0, body, r), r.closeFault);
    assert c.ending == Throws(TimedOut) && c.body == Some([8]);
    assert t == Handled(s, 0, c);
    assert t.ending == Continues && t.body == Some([8]);
    assert Loop(step, body, 0) == Progress([], [], body, None);
    assert Loop(step, body, 1).sent == [body] && Loop(step, body, 1).body == Some([8])
      && Loop(step, body, 1).outcome == None;
    assert Loop(step, body, 2).sent == [body, Some([8])];
    SentGrows(step, body, 2, s.policy.maxRetries + 1);
  }

  lemma {:induction false} SentGrows(step: Stepper, body: Option<Bytes>, n: nat, m: nat)
    requires n <= m
    ensures Loop(step, body, n).sent <= Loop(step, body, m).sent
    decreases m
  {
    if n < m { SentGrows(step, body, n, m - 1); }
  }
}
