/** `lookup_upc` (smart.py:72-103): one Go-UPC lookup with retries on HTTP
    429. The network is not modelled; the caller supplies what each attempt
    would get back. */
module GoUpc {

  /** `MAX_RETRIES` and `INITIAL_WAIT` (smart.py:49-50). */
  const MaxRetries: nat := 5
  const InitialWait: nat := 1

  /** The `product` object of a Go-UPC answer; an absent field is "". */
  datatype Product = Product(name: string, brand: string, imageUrl: string)

  /** A decoded Go-UPC answer: the `code` it echoes and its `product`. */
  datatype Payload = Payload(code: string, product: Product)

  /** The body of an HTTP answer: JSON that decodes, or not. */
  datatype Body = Json(payload: Payload) | Malformed

  /** What one `requests.get` gives: an answer with a status code, a
      `Timeout`, or another `RequestException` (connection refused, DNS, ...). */
  datatype Attempt = Response(status: int, body: Body) | TimedOut | NetworkError

  /** Why a lookup raised `HTTPError`: re-raised for a status code (line 94
      or 99), or raised at line 103 once the loop is left. */
  datatype Failure = StatusError(code: int) | AfterRetries

  /** The outcome of `lookup_upc`: the JSON it returns, the `HTTPError` it
      raises, or the `sys.exit` at line 96 for 401 and 403. */
  datatype Lookup = Found(payload: Payload) | Failed(failure: Failure) | Fatal(code: int)

  predicate IsRateLimit(a: Attempt) {
    a.Response? && a.status == 429
  }

  /** The statuses `raise_for_status` raises for: client and server errors. */
  predicate RaisesForStatus(status: int) {
    400 <= status < 600
  }

  function Pow2(n: nat): (p: nat)
    ensures p >= 1
  {
    if n == 0 then 1 else 2 * Pow2(n - 1)
  }

  /** The sleeps of `k` rate-limited attempts in order: `wait` starts at
      `INITIAL_WAIT` and doubles after each sleep. */
  function Backoff(k: nat): (s: seq<nat>)
    ensures |s| == k
  {
    if k == 0 then [] else Backoff(k - 1) + [InitialWait * Pow2(k - 1)]
  }

  function Sum(s: seq<nat>): nat {
    if s == [] then 0 else Sum(s[..|s| - 1]) + s[|s| - 1]
  }

  /** How one attempt that is not a 429 ends the lookup (lines 86-102). */
  function Settle(a: Attempt): (r: Lookup)
    requires !IsRateLimit(a)
    ensures r.Found? <==> a.Response? && !RaisesForStatus(a.status) && a.body.Json?
    ensures r.Found? ==> r.payload == a.body.payload
    ensures r.Fatal? <==> a.Response? && (a.status == 401 || a.status == 403)
    ensures r == Failed(AfterRetries) <==> !a.Response? || (!RaisesForStatus(a.status) && a.body.Malformed?)
  {
    match a
    case Response(status, body) =>
      if RaisesForStatus(status) then
        if status == 401 || status == 403 then Fatal(status) else Failed(StatusError(status))
      else if body.Json? then Found(body.payload)
      else Failed(AfterRetries)
    case TimedOut => Failed(AfterRetries)
    case NetworkError => Failed(AfterRetries)
  }

  /** The number of leading 429 answers, counting from attempt `i + 1` and
      at most `MaxRetries` in all. */
  function RateLimitsFrom(outcomes: seq<Attempt>, i: nat): (k: nat)
    requires i <= MaxRetries && i <= |outcomes|
    ensures i <= k <= MaxRetries && k <= |outcomes|
    ensures forall j :: i <= j < k ==> IsRateLimit(outcomes[j])
    ensures k < MaxRetries && k < |outcomes| ==> !IsRateLimit(outcomes[k])
    decreases MaxRetries - i
  {
    if i < MaxRetries && i < |outcomes| && IsRateLimit(outcomes[i]) then RateLimitsFrom(outcomes, i + 1)
    else i
  }

  /** How many of the attempts were answered with 429 before the lookup
      stopped. */
  function RateLimits(outcomes: seq<Attempt>): (k: nat)
    ensures k <= MaxRetries && k <= |outcomes|
    ensures forall j :: 0 <= j < k ==> IsRateLimit(outcomes[j])
    ensures k < MaxRetries && k < |outcomes| ==> !IsRateLimit(outcomes[k])
  {
    RateLimitsFrom(outcomes, 0)
  }

  /** The result of `lookup_upc` when attempt `i + 1` is answered by
      `outcomes[i]`. */
  function LookupOutcome(outcomes: seq<Attempt>): (r: Lookup)
    requires |outcomes| >= MaxRetries
    ensures (forall j :: 0 <= j < MaxRetries ==> IsRateLimit(outcomes[j])) ==> r == Failed(AfterRetries)
    ensures r.Found? ==> exists i :: 0 <= i < MaxRetries && (forall j :: 0 <= j < i ==> IsRateLimit(outcomes[j]))
                                     && outcomes[i].Response? && !RaisesForStatus(outcomes[i].status)
                                     && outcomes[i].body == Json(r.payload)
    ensures r.Fatal? ==> r.code == 401 || r.code == 403
  {
    var k := RateLimits(outcomes);
    if k == MaxRetries then Failed(AfterRetries) else Settle(outcomes[k])
  }

  /** How many requests `lookup_upc` sends: at least one and never more than
      `MAX_RETRIES`. */
  function RequestCount(outcomes: seq<Attempt>): (n: nat)
    requires |outcomes| >= MaxRetries
    ensures 1 <= n <= MaxRetries
    ensures RateLimits(outcomes) <= n
  {
    var k := RateLimits(outcomes);
    if k == MaxRetries then MaxRetries else k + 1
  }

  /** The leading run of 429s is exactly `k` long. */
  lemma RateLimitsExactly(outcomes: seq<Attempt>, k: nat)
    requires k <= MaxRetries && k <= |outcomes|
    requires forall j :: 0 <= j < k ==> IsRateLimit(outcomes[j])
    requires k < MaxRetries && k < |outcomes| ==> !IsRateLimit(outcomes[k])
    ensures RateLimits(outcomes) == k
  {
    RunFromExactly(outcomes, 0, k);
  }

  lemma {:induction false} RunFromExactly(outcomes: seq<Attempt>, i: nat, k: nat)
    requires i <= k <= MaxRetries && k <= |outcomes|
    requires forall j :: i <= j < k ==> IsRateLimit(outcomes[j])
    requires k < MaxRetries && k < |outcomes| ==> !IsRateLimit(outcomes[k])
    ensures RateLimitsFrom(outcomes, i) == k
    decreases k - i
  {
    if i < k {
      RunFromExactly(outcomes, i + 1, k);
    }
  }

  /** `lookup_upc(upc)`, where attempt `i + 1` gets `outcomes[i]`. Besides
      the result it reports how many requests were sent and the durations
      passed to `time.sleep`, in order. */
  method LookupUpc(outcomes: seq<Attempt>) returns (r: Lookup, ghost requests: nat, ghost sleeps: seq<nat>)
    requires |outcomes| >= MaxRetries
    ensures r == LookupOutcome(outcomes)
    ensures requests == RequestCount(outcomes)
    ensures sleeps == Backoff(RateLimits(outcomes))
  {
    var wait := InitialWait;
    var attempt := 1;
    requests, sleeps := 0, [];
    while attempt <= MaxRetries
      invariant 1 <= attempt <= MaxRetries + 1
      invariant requests == attempt - 1
      invariant forall j :: 0 <= j < attempt - 1 ==> IsRateLimit(outcomes[j])
      invariant wait == InitialWait * Pow2(attempt - 1)
      invariant sleeps == Backoff(attempt - 1)
    {
      var a := outcomes[attempt - 1];
      requests := requests + 1;
      if a.Response? && a.status == 429 {
        sleeps := sleeps + [wait];
        wait := wait * 2;
        attempt := attempt + 1;
        continue;
      }
      RateLimitsExactly(outcomes, attempt - 1);
      match a {
        case TimedOut =>
          break;
        case NetworkError =>
          break;
        case Response(status, body) =>
          if 400 <= status < 600 {
            if status == 401 || status == 403 {
              r := Fatal(status);
            } else {
              r := Failed(StatusError(status));
            }
            return;
          }
          if body.Malformed? {
            break;
          }
          r := Found(body.payload);
          return;
      }
    }
    if attempt > MaxRetries {
      RateLimitsExactly(outcomes, MaxRetries);
    }
    r := Failed(AfterRetries);
  }

  /** `k < MAX_RETRIES` answers of 429 and then a successful one: the lookup
      returns that payload after `k + 1` requests and `k` sleeps. */
  lemma RateLimitedThenFound(outcomes: seq<Attempt>, k: nat, status: int, p: Payload)
    requires |outcomes| >= MaxRetries && k < MaxRetries
    requires forall j :: 0 <= j < k ==> IsRateLimit(outcomes[j])
    requires outcomes[k] == Response(status, Json(p)) && status != 429 && !RaisesForStatus(status)
    ensures LookupOutcome(outcomes) == Found(p)
    ensures RequestCount(outcomes) == k + 1
    ensures RateLimits(outcomes) == k
  {
    RateLimitsExactly(outcomes, k);
  }

  /** `k` sleeps last `InitialWait * 2^0`, ..., `InitialWait * 2^(k-1)`. */
  lemma {:induction false} BackoffDurations(k: nat)
    ensures forall i :: 0 <= i < k ==> Backoff(k)[i] == InitialWait * Pow2(i)
  {
    if k > 0 {
      BackoffDurations(k - 1);
      assert forall i :: 0 <= i < k - 1 ==> Backoff(k)[i] == Backoff(k - 1)[i];
    }
  }

  /** Together the sleeps of `k` rate-limited attempts last
      `InitialWait * (2^k - 1)`. */
  lemma {:induction false} BackoffTotal(k: nat)
    ensures Sum(Backoff(k)) == InitialWait * (Pow2(k) - 1)
  {
    if k > 0 {
      BackoffTotal(k - 1);
      assert Backoff(k)[..k - 1] == Backoff(k - 1);
    }
  }

  /** Five answers of 429: five requests, five sleeps of 1, 2, 4, 8 and 16
      (the last one after the final attempt), then `HTTPError`. */
  lemma AllRateLimited(outcomes: seq<Attempt>)
    requires |outcomes| >= MaxRetries
    requires forall j :: 0 <= j < MaxRetries ==> IsRateLimit(outcomes[j])
    ensures LookupOutcome(outcomes) == Failed(AfterRetries)
    ensures RequestCount(outcomes) == MaxRetries
    ensures Backoff(RateLimits(outcomes)) == [1, 2, 4, 8, 16]
  {
    RateLimitsExactly(outcomes, MaxRetries);
    assert Backoff(2) == [1, 2];
    assert Backoff(4) == [1, 2, 4, 8];
  }

  /** A first answer other than 429 at attempt `n + 1` ends the lookup
      there: `n + 1` requests and `n` sleeps. A 401 or 403 exits; a timeout,
      a network error, undecodable JSON or any other failing status raises
      `HTTPError`. */
  lemma StopsAtFirstOther(outcomes: seq<Attempt>, n: nat)
    requires |outcomes| >= MaxRetries && n < MaxRetries
    requires forall j :: 0 <= j < n ==> IsRateLimit(outcomes[j])
    requires !IsRateLimit(outcomes[n])
    ensures RequestCount(outcomes) == n + 1 && RateLimits(outcomes) == n
    ensures LookupOutcome(outcomes) == Settle(outcomes[n])
    ensures outcomes[n].TimedOut? || outcomes[n].NetworkError? ==> LookupOutcome(outcomes) == Failed(AfterRetries)
    ensures outcomes[n].Response? && RaisesForStatus(outcomes[n].status) ==>
      LookupOutcome(outcomes) == if outcomes[n].status in {401, 403} then Fatal(outcomes[n].status)
                                 else Failed(StatusError(outcomes[n].status))
  {
    RateLimitsExactly(outcomes, n);
  }

  /** Answers after the last request sent are never looked at: two answer
      sequences that agree on the requests sent give the same lookup. */
  lemma LaterAnswersIgnored(outcomes: seq<Attempt>, other: seq<Attempt>)
    requires |outcomes| >= MaxRetries && |other| >= MaxRetries
    requires outcomes[..RequestCount(outcomes)] == other[..RequestCount(outcomes)]
    ensures LookupOutcome(other) == LookupOutcome(outcomes)
    ensures RequestCount(other) == RequestCount(outcomes)
  {
    var k := RateLimits(outcomes);
    var n := RequestCount(outcomes);
    assert forall j :: 0 <= j < n ==> other[j] == outcomes[..n][j];
    RateLimitsExactly(other, k);
  }
}
