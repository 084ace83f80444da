/**
 * The retry policy of the market-data fetch. The price-history endpoint is
 * replaced by the sequence of outcomes its successive requests produce;
 * the five-second pause between attempts is counted, not timed.
 */
module MarketFetch {

  /** What one request to the endpoint produced. */
  datatype Outcome<P> =
    | Response(payload: P)        // status accepted and body decoded
    | HttpError(status: int)      // `raise_for_status` rejected the status
    | RequestError                // any other failure of the request library

  /** HTTP status of a rate-limited request. */
  const RateLimited: int := 429

  /** The error the fetch propagates to its caller. */
  datatype FetchError = HttpStatusError(status: int) | RequestFailure

  /** What the fetch hands back: the payload, a raised error, or Python's implicit `None`. */
  datatype FetchResult<P> = Returned(payload: P) | Raised(error: FetchError) | NoneReturned

  /** A run of the fetch: its result, the requests made and the pauses taken. */
  datatype Trace<P> = Trace(result: FetchResult<P>, attempts: nat, sleeps: nat)

  /** A rate limit or a non-HTTP request failure is worth another attempt. */
  predicate Retryable<P>(o: Outcome<P>) {
    o.RequestError? || (o.HttpError? && o.status == RateLimited)
  }

  /** The error a failed request raises. */
  function ErrorOf<P>(o: Outcome<P>): (e: FetchError)
    requires !o.Response?
    ensures o.HttpError? <==> e.HttpStatusError?
    ensures o.HttpError? ==> e.status == o.status
  {
    if o.HttpError? then HttpStatusError(o.status) else RequestFailure
  }

  /**
   * Attempt number `attempt` and the ones after it, having already paused
   * `slept` times; attempts are counted from 1, as `range(1, max_retries + 1)`
   * in `fetch_market_data` counts them.
   */
  function Attempt<P>(outcomes: seq<Outcome<P>>, maxRetries: int, attempt: nat, slept: nat): (t: Trace<P>)
    requires 1 <= attempt <= maxRetries <= |outcomes|
    ensures attempt <= t.attempts <= maxRetries
    ensures t.sleeps == slept + (t.attempts - attempt)
    ensures !t.result.NoneReturned?
    decreases maxRetries - attempt
  {
    var o := outcomes[attempt - 1];
    match o
    case Response(p) => Trace(Returned(p), attempt, slept)
    case HttpError(status) =>
      if status == RateLimited && attempt < maxRetries then
        Attempt(outcomes, maxRetries, attempt + 1, slept + 1)
      else
        Trace(Raised(HttpStatusError(status)), attempt, slept)
    case RequestError =>
      if attempt < maxRetries then Attempt(outcomes, maxRetries, attempt + 1, slept + 1)
      else Trace(Raised(RequestFailure), attempt, slept)
  }

  /**
   * `fetch_market_data`: up to `maxRetries` attempts; `outcomes[k]` is what
   * attempt `k + 1` would produce, so the endpoint answers every request made.
   */
  function FetchMarketData<P>(outcomes: seq<Outcome<P>>, maxRetries: int): (t: Trace<P>)
    requires maxRetries <= |outcomes|
    ensures t.attempts <= if maxRetries <= 0 then 0 else maxRetries
    ensures t.result.NoneReturned? <==> maxRetries <= 0
    ensures t.result.NoneReturned? <==> t.attempts == 0
    ensures t.attempts > 0 ==> t.sleeps == t.attempts - 1
  {
    if maxRetries < 1 then Trace(NoneReturned, 0, 0)
    else Attempt(outcomes, maxRetries, 1, 0)
  }

  /**
   * Number of leading outcomes of `os` that are retryable: the index of the
   * first outcome that ends the loop, or `|os|` when there is none.
   */
  function FirstStop<P>(os: seq<Outcome<P>>): (k: nat)
    ensures k <= |os|
    ensures forall j :: 0 <= j < k ==> Retryable(os[j])
    ensures k < |os| ==> !Retryable(os[k])
  {
    if |os| == 0 || !Retryable(os[0]) then 0 else 1 + FirstStop(os[1..])
  }

  /**
   * The retry policy stated without a loop: nothing when no attempt is
   * allowed; otherwise the first non-retryable outcome within the budget
   * decides, and when every attempt is retryable the last one's error is raised.
   */
  function Policy<P>(outcomes: seq<Outcome<P>>, maxRetries: int): Trace<P>
    requires maxRetries <= |outcomes|
  {
    if maxRetries <= 0 then Trace(NoneReturned, 0, 0)
    else
      var k := FirstStop(outcomes[..maxRetries]);
      if k < maxRetries then
        match outcomes[k]
        case Response(p) => Trace(Returned(p), k + 1, k)
        case HttpError(s) => Trace(Raised(HttpStatusError(s)), k + 1, k)
        case RequestError => Trace(Raised(RequestFailure), k + 1, k)
      else
        Trace(Raised(ErrorOf(outcomes[maxRetries - 1])), maxRetries, maxRetries - 1)
  }

  /** From attempt `a` on, with every earlier attempt retried, the loop follows the policy. */
  lemma {:induction false} AttemptFollowsPolicy<P>(outcomes: seq<Outcome<P>>, maxRetries: int, a: nat)
    requires 1 <= a <= maxRetries <= |outcomes|
    requires forall j :: 0 <= j < a - 1 ==> Retryable(outcomes[j])
    ensures Attempt(outcomes, maxRetries, a, a - 1) == Policy(outcomes, maxRetries)
    decreases maxRetries - a
  {
    var os := outcomes[..maxRetries];
    var k := FirstStop(os);
    assert forall j :: 0 <= j < a - 1 ==> Retryable(os[j]);
    assert k >= a - 1;
    if Retryable(outcomes[a - 1]) {
      assert Retryable(os[a - 1]);
      if a < maxRetries {
        AttemptFollowsPolicy(outcomes, maxRetries, a + 1);
      } else {
        assert k == maxRetries;
      }
    } else {
      assert !Retryable(os[a - 1]);
      assert k == a - 1;
    }
  }

  /** The loop of `fetch_market_data` and the policy agree on every outcome sequence and budget. */
  lemma FetchFollowsPolicy<P>(outcomes: seq<Outcome<P>>, maxRetries: int)
    requires maxRetries <= |outcomes|
    ensures FetchMarketData(outcomes, maxRetries) == Policy(outcomes, maxRetries)
  {
    if maxRetries >= 1 {
      AttemptFollowsPolicy(outcomes, maxRetries, 1);
    }
  }

  /** The first non-retryable outcome within the budget is where the policy stops. */
  lemma StopsAtFirstNonRetryable<P>(outcomes: seq<Outcome<P>>, maxRetries: int, k: nat)
    requires k < maxRetries <= |outcomes|
    requires !Retryable(outcomes[k])
    requires forall j :: 0 <= j < k ==> Retryable(outcomes[j])
    ensures FirstStop(outcomes[..maxRetries]) == k
  {
  }

  /**
   * A response reached with every earlier attempt retryable is returned
   * unchanged, and the fetch stops there: `k + 1` requests, `k` pauses.
   */
  lemma FetchReturnsFirstResponse<P>(outcomes: seq<Outcome<P>>, maxRetries: int, k: nat)
    requires k < maxRetries <= |outcomes|
    requires outcomes[k].Response?
    requires forall j :: 0 <= j < k ==> Retryable(outcomes[j])
    ensures FetchMarketData(outcomes, maxRetries) == Trace(Returned(outcomes[k].payload), k + 1, k)
  {
    FetchFollowsPolicy(outcomes, maxRetries);
    StopsAtFirstNonRetryable(outcomes, maxRetries, k);
  }

  /**
   * Conversely, whatever the fetch returns is the payload of a response
   * within the budget, every attempt before which was retryable.
   */
  lemma FetchReturnsOnlyResponses<P>(outcomes: seq<Outcome<P>>, maxRetries: int)
    requires maxRetries <= |outcomes|
    ensures var t := FetchMarketData(outcomes, maxRetries);
            t.result.Returned? ==>
              && 1 <= t.attempts <= maxRetries
              && outcomes[t.attempts - 1] == Response(t.result.payload)
              && forall j :: 0 <= j < t.attempts - 1 ==> Retryable(outcomes[j])
  {
    FetchFollowsPolicy(outcomes, maxRetries);
    if maxRetries > 0 {
      var os := outcomes[..maxRetries];
      var k := FirstStop(os);
      assert forall j :: 0 <= j < k ==> Retryable(os[j]);
      if k < maxRetries {
        assert outcomes[k] == os[k];
      }
    }
  }

  /**
   * An HTTP error other than 429, reached with every earlier attempt
   * retryable, is raised at once: no pause for it and no further request.
   */
  lemma FetchFailsFastOnHttpError<P>(outcomes: seq<Outcome<P>>, maxRetries: int, k: nat)
    requires k < maxRetries <= |outcomes|
    requires outcomes[k].HttpError? && outcomes[k].status != RateLimited
    requires forall j :: 0 <= j < k ==> Retryable(outcomes[j])
    ensures FetchMarketData(outcomes, maxRetries) ==
              Trace(Raised(HttpStatusError(outcomes[k].status)), k + 1, k)
  {
    FetchFollowsPolicy(outcomes, maxRetries);
    StopsAtFirstNonRetryable(outcomes, maxRetries, k);
  }

  /**
   * When every attempt within a positive budget is rate-limited or fails in
   * the request layer, all `maxRetries` requests are made with a pause
   * between each two, and the last one's error is raised.
   */
  lemma FetchExhaustsRetries<P>(outcomes: seq<Outcome<P>>, maxRetries: int)
    requires 1 <= maxRetries <= |outcomes|
    requires forall j :: 0 <= j < maxRetries ==> Retryable(outcomes[j])
    ensures var t := FetchMarketData(outcomes, maxRetries);
              t.result.Raised? && t.attempts == maxRetries && t.sleeps == maxRetries - 1 &&
              (outcomes[maxRetries - 1].RequestError? ==> t.result.error == RequestFailure) &&
              (outcomes[maxRetries - 1].HttpError? ==> t.result.error == HttpStatusError(RateLimited))
  {
    FetchFollowsPolicy(outcomes, maxRetries);
    var os := outcomes[..maxRetries];
    assert forall j :: 0 <= j < maxRetries ==> Retryable(os[j]);
    assert FirstStop(os) == maxRetries;
  }

  /** Two rate limits then a response, with three attempts allowed: the response is returned. */
  lemma RateLimitedTwiceThenOk<P>(p: P)
    ensures FetchMarketData([HttpError(429), HttpError(429), Response(p)], 3) ==
              Trace(Returned(p), 3, 2)
  {
  }
}
