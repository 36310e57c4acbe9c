/** The paced, bounded JSON client (market_data/http.py:46-126). Durations and instants are integers; the server's
    replies and the passing of time are given. */
module HttpClient {
  import opened Results

  datatype RetryAfter = NoHeader | Numeric(seconds: int) | Garbled

  datatype Reply = Timeout | ConnectionError | Response(status: int, retryAfter: RetryAfter, wellFormed: bool)

  datatype Outcome = Json | Budget | Transport | RateLimit | Http | Auth | Redirect | Payload | Unreachable

  datatype Config = Config(maxRetries: nat, backoff: nat, waitCap: nat, minInterval: nat, rateLimitFallback: nat)

  const TRANSIENT_STATUS := {500, 502, 503, 504}

  /** What may be retried: connection failures, rate limits and four server errors. */
  predicate Transient(r: Reply) {
    match r
    case Response(status, _, _) => status == 429 || status in TRANSIENT_STATUS
    case _ => true
  }

  /** The outcome that a reply leads to when nothing is retried. */
  function Verdict(r: Reply): Outcome {
    match r
    case Timeout => Transport
    case ConnectionError => Transport
    case Response(status, _, wellFormed) =>
      if status == 200 then (if wellFormed then Json else Payload)
      else if status in {401, 403} then Auth
      else if 300 <= status < 400 then Redirect
      else if status == 429 then RateLimit
      else Http
  }

  function Power(n: nat): nat {
    if n == 0 then 1 else 2 * Power(n - 1)
  }

  function Max(a: int, b: int): int {
    if a >= b then a else b
  }

  function Min(a: int, b: int): int {
    if a <= b then a else b
  }

  /** The wait before the next attempt. */
  function Delay(cfg: Config, attempt: nat, r: Reply): nat {
    var base := cfg.backoff * Power(attempt);
    var wanted :=
      if r.Response? && r.status == 429 then
        if r.retryAfter.Numeric? then Max(base, r.retryAfter.seconds) else Max(base, cfg.rateLimitFallback)
      else base;
    Min(wanted, cfg.waitCap)
  }

  /** What a caller may count on being retried: a lost connection, a timeout, 429 and four server errors. */
  predicate Retryable(r: Reply) {
    r.Timeout? || r.ConnectionError? ||
      r.status == 429 || r.status == 500 || r.status == 502 || r.status == 503 || r.status == 504
  }

  /** What an outcome says of the reply it ended with. */
  predicate Tells(outcome: Outcome, r: Reply) {
    match outcome
    case Json => r.Response? && r.status == 200 && r.wellFormed
    case Payload => r.Response? && r.status == 200 && !r.wellFormed
    case Auth => r.Response? && (r.status == 401 || r.status == 403)
    case Redirect => r.Response? && 300 <= r.status <= 399
    case RateLimit => r.Response? && r.status == 429
    case Transport => r.Timeout? || r.ConnectionError?
    case Http =>
      r.Response? && r.status !in {200, 401, 403, 429} && !(300 <= r.status <= 399)
    case Budget => false
    case Unreachable => false
  }

  /** The backoff after `attempt` attempts: it doubles with each one. */
  function Backoff(first: nat, attempt: nat): nat {
    if attempt == 0 then first else 2 * Backoff(first, attempt - 1)
  }

  /** A wait is the backoff, or after a rate limit the server's wish or the fallback if longer, up to the cap. */
  predicate WaitsFor(cfg: Config, attempt: nat, r: Reply, wait: int) {
    var backoff := Backoff(cfg.backoff, attempt);
    var wish := if !r.Response? || r.status != 429 then backoff
                else match r.retryAfter case Numeric(seconds) => seconds case _ => cfg.rateLimitFallback;
    var longer := if wish > backoff then wish else backoff;
    wait == if longer > cfg.waitCap then cfg.waitCap else longer
  }

  lemma TransientMeaning(r: Reply)
    ensures Transient(r) <==> Retryable(r)
  {
  }

  lemma VerdictMeaning(r: Reply)
    ensures Tells(Verdict(r), r)
  {
  }

  lemma {:induction false} BackoffMeaning(first: nat, attempt: nat)
    ensures Backoff(first, attempt) == first * Power(attempt)
  {
    if attempt > 0 {
      BackoffMeaning(first, attempt - 1);
      assert first * Power(attempt) == 2 * (first * Power(attempt - 1));
    }
  }

  lemma DelayMeaning(cfg: Config, attempt: nat, r: Reply)
    ensures WaitsFor(cfg, attempt, r, Delay(cfg, attempt, r))
  {
    BackoffMeaning(cfg.backoff, attempt);
  }

  /** Recorded request instants at least `gap` apart. */
  ghost predicate Spaced(instants: seq<int>, gap: int) {
    forall i :: 0 < i < |instants| ==> instants[i] - instants[i - 1] >= gap
  }

  function CountStatus(replies: nat -> Reply, n: nat, status: int): nat {
    if n == 0 then 0
    else
      CountStatus(replies, n - 1, status) +
      if replies(n - 1).Response? && replies(n - 1).status == status then 1 else 0
  }

  /** The status counter after one more reply. */
  function Counted(counts: map<int, nat>, r: Reply): map<int, nat> {
    if r.Response? then counts[r.status := (if r.status in counts then counts[r.status] else 0) + 1] else counts
  }

  ghost predicate CountsAgree(counts: map<int, nat>, replies: nat -> Reply, n: nat) {
    forall status :: (if status in counts then counts[status] else 0) == CountStatus(replies, n, status)
  }

  class JsonHttpClient {
    const cfg: Config
    const replies: nat -> Reply   // the reply to each request, in order
    const drift: nat -> nat       // time that passes before each reading of the clock
    var readings: nat
    var now: int
    var lastRequestAt: Option<int>
    var pacedSeconds: int
    var requestsMade: nat
    var maxRequests: Option<nat>
    var statusCounts: map<int, nat>
    ghost var instants: seq<int>  // every request instant recorded so far
    ghost var waits: seq<int>     // every wait between attempts so far
    ghost var made: nat           // requests made when the budget was set

    ghost predicate Valid() reads this {
      && Spaced(instants, cfg.minInterval)
      && lastRequestAt == (if instants == [] then None else Some(instants[|instants| - 1]))
      && (lastRequestAt.Some? ==> lastRequestAt.value <= now)
      && requestsMade == |instants|
      && (maxRequests.Some? ==> requestsMade <= Max(maxRequests.value, made))
      && (forall w <- waits :: 0 <= w <= cfg.waitCap)
      && CountsAgree(statusCounts, replies, requestsMade)
    }

    constructor (cfg: Config, replies: nat -> Reply, drift: nat -> nat, start: int)
      ensures Valid() && requestsMade == 0 && maxRequests == None
      ensures this.cfg == cfg && this.replies == replies
    {
      this.cfg, this.replies, this.drift := cfg, replies, drift;
      readings, now, lastRequestAt, pacedSeconds := 0, start, None, 0;
      requestsMade, maxRequests, statusCounts := 0, None, map[];
      instants, waits, made := [], [], 0;
    }

    method SetBudget(budget: nat)
      requires Valid()
      modifies this`maxRequests, this`made
      ensures Valid() && maxRequests == Some(budget) && made == requestsMade
    {
      maxRequests, made := Some(budget), requestsMade;
    }

    method Clock() returns (t: int)
      modifies this`readings, this`now
      ensures t == now == old(now) + drift(old(readings)) && readings == old(readings) + 1
    {
      now := now + drift(readings);
      readings := readings + 1;
      t := now;
    }

    /** `_pace`: wait out the rest of the interval, then record the instant. */
    method Pace()
      requires Valid()
      modifies this`readings, this`now, this`lastRequestAt, this`pacedSeconds
      ensures lastRequestAt == Some(now) && now >= old(now) && pacedSeconds >= old(pacedSeconds)
      ensures old(lastRequestAt).Some? ==> now - old(lastRequestAt).value >= cfg.minInterval
      ensures var paced := pacedSeconds - old(pacedSeconds);
        if cfg.minInterval > 0 && old(lastRequestAt).Some? then
          var early := old(lastRequestAt).value + cfg.minInterval - (old(now) + drift(old(readings)));
          paced == (if early > 0 then early else 0)
          && now == old(now) + drift(old(readings)) + paced + drift(old(readings) + 1)
        else paced == 0 && now == old(now) + drift(old(readings))
    {
      if cfg.minInterval > 0 && lastRequestAt.Some? {
        var t := Clock();
        var wait := lastRequestAt.value + cfg.minInterval - t;
        if wait > 0 {
          pacedSeconds := pacedSeconds + wait;
          now := now + wait;
        }
      }
      var t := Clock();
      lastRequestAt := Some(t);
    }

    /** One paced request: a new instant, spaced from the last. */
    method Request() returns (r: Reply)
      requires Valid()
      requires maxRequests.Some? ==> requestsMade < maxRequests.value
      modifies this
      ensures Valid() && r == replies(old(requestsMade)) && requestsMade == old(requestsMade) + 1
      ensures old(instants) <= instants && waits == old(waits) && maxRequests == old(maxRequests) && made == old(made)
    {
      Pace();
      requestsMade := requestsMade + 1;
      instants := instants + [now];
      r := replies(requestsMade - 1);
      statusCounts := Counted(statusCounts, r);
    }

    /** `_wait`. */
    method Wait(attempt: nat, r: Reply)
      requires Valid()
      modifies this`now, this`waits
      ensures Valid() && |waits| == |old(waits)| + 1 && waits[..|old(waits)|] == old(waits)
      ensures var wait := waits[|old(waits)|]; WaitsFor(cfg, attempt, r, wait) && now == old(now) + wait
    {
      DelayMeaning(cfg, attempt, r);
      var delay := Delay(cfg, attempt, r);
      now := now + delay;
      waits := waits + [delay];
    }

    /** The waits since `before` follow the replies from number `first` on, one each. */
    ghost predicate WaitedBetween(before: seq<int>, first: nat) reads this`waits {
      before <= waits && forall a: nat :: a < |waits| - |before| ==> WaitedAt(waits, before, first, a)
    }

    ghost predicate WaitedAt(all: seq<int>, before: seq<int>, first: nat, a: nat) {
      |before| + a < |all| && WaitsFor(cfg, a, replies(first + a), all[|before| + a])
    }

    lemma OneMoreWait(first: seq<int>, before: seq<int>, made: nat, attempt: nat)
      requires |before| == |first| + attempt && |waits| == |before| + 1 && waits[..|before|] == before
      requires first <= before && forall a: nat :: a < attempt ==> WaitedAt(before, first, made, a)
      requires WaitsFor(cfg, attempt, replies(made + attempt), waits[|before|])
      ensures WaitedBetween(first, made)
    {
      forall a: nat | a < |waits| - |first| ensures WaitedAt(waits, first, made, a) {
        if a < attempt {
          assert WaitedAt(before, first, made, a);
          assert waits[|first| + a] == waits[..|before|][|first| + a];
        }
      }
    }

    /** `get_json`: the requests made are the leading transient replies and the first other one, cut off by the retry
        limit or the budget; the outcome is the last reply's; the final assertion is unreachable. */
    method GetJson() returns (outcome: Outcome)
      requires Valid()
      modifies this
      ensures Valid() && old(instants) <= instants && maxRequests == old(maxRequests) && made == old(made)
      ensures old(requestsMade) <= requestsMade <= old(requestsMade) + cfg.maxRetries + 1
      ensures old(waits) <= waits && |waits| <= |old(waits)| + cfg.maxRetries
      ensures forall k :: old(requestsMade) <= k < requestsMade - 1 ==> Retryable(replies(k))
      ensures WaitedBetween(old(waits), old(requestsMade))
      ensures outcome != Unreachable
      ensures outcome == Budget <==>
        maxRequests.Some? && requestsMade >= maxRequests.value && requestsMade <= old(requestsMade) + cfg.maxRetries
        && forall k :: old(requestsMade) <= k < requestsMade ==> Retryable(replies(k))
      ensures outcome != Budget ==> requestsMade > old(requestsMade) && Tells(outcome, replies(requestsMade - 1))
      ensures outcome != Budget && Retryable(replies(requestsMade - 1)) ==>
        requestsMade == old(requestsMade) + cfg.maxRetries + 1
    {
      for attempt := 0 to cfg.maxRetries + 1
        invariant Valid() && old(instants) <= instants && maxRequests == old(maxRequests) && made == old(made)
        invariant requestsMade == old(requestsMade) + attempt
        invariant |waits| == |old(waits)| + attempt && WaitedBetween(old(waits), old(requestsMade))
        invariant forall k :: old(requestsMade) <= k < requestsMade ==> Retryable(replies(k))
        invariant attempt <= cfg.maxRetries
      {
        if maxRequests.Some? && requestsMade >= maxRequests.value {
          return Budget;
        }
        var r := Request();
        TransientMeaning(r);
        VerdictMeaning(r);
        if !Transient(r) || attempt == cfg.maxRetries {
          return Verdict(r);
        }
        ghost var before := waits;
        Wait(attempt, r);
        OneMoreWait(old(waits), before, old(requestsMade), attempt);
      }
      return Unreachable;
    }
  }

  /** Consecutive spacing bounds a burst: `n` requests take at least `n - 1` intervals. */
  lemma {:induction false} BurstsAreSlow(instants: seq<int>, gap: nat, i: nat, j: nat)
    requires Spaced(instants, gap) && i <= j < |instants|
    ensures instants[j] - instants[i] >= (j - i) * gap
    decreases j - i
  {
    if i < j {
      BurstsAreSlow(instants, gap, i, j - 1);
      assert (j - i) * gap == (j - 1 - i) * gap + gap;
    }
  }
}
