/** The retry wrapper `api_request_with_rotation` around an `ApiKeyPool`:
    each attempt takes a key from the pool, calls the wrapped request with
    it and reacts to the outcome. */
module Retry {
  import opened Wrappers
  import opened Clock
  import opened KeyPool

  /** The `Retry-After` header of a 429 response: missing or empty, an
      integer number of seconds, or text `int()` rejects. */
  datatype RetryAfter = Absent | Delay(seconds: int) | Malformed

  /** What one call of the wrapped request does. */
  datatype Outcome<T> = Returned(value: T) | HttpError(status: int, retryAfter: RetryAfter) | Failed(message: string)

  /** The exception the wrapper raises. */
  datatype Fault = HttpFault(status: int) | Raised(message: string) | ValueError

  const NoKeyMessage := "No API keys available"
  const AllFailedMessage := "All retry attempts failed"

  /** The pool and clock after the wrapper returns or raises, with the
      number of calls made to the wrapped request. */
  datatype Run<T> = Run(result: Result<T, Fault>, keys: seq<ApiKeyStats>, cursor: nat, clock: int, calls: nat)

  function Pow2(n: nat): (p: nat)
    ensures p >= 1
  {
    if n == 0 then 1 else 2 * Pow2(n - 1)
  }

  /** How long attempt `a` takes besides the sleeps: `call` is the time from
      the key being handed out until the wrapped request returns or raises,
      `gap` the time from then (after any mark on the pool) until the loop
      next reads the clock, in the next `get_next_key` or before the backoff
      sleep. Both may be 0. */
  datatype Timing = Timing(call: nat, gap: nat)

  /** The sleep after a generic failure: 2^attempt seconds, except after
      the last attempt. */
  function Backoff(attempt: nat, maxRetries: int): (b: nat)
    ensures b == 0 <==> attempt >= maxRetries - 1
  {
    if attempt < maxRetries - 1 then Seconds(Pow2(attempt)) else 0
  }

  /** Python's `//` by 60: floor division, which for a positive divisor is
      Dafny's Euclidean division. */
  function MinutesOf(seconds: int): (m: int)
    ensures m * 60 <= seconds < m * 60 + 60
  {
    seconds / 60
  }

  /** What one pass of the loop body leaves: the wrapper returns or raises
      (`Finish`), or it goes on to the next attempt with the records, the
      cursor, the clock, the exception just caught and the calls made. */
  datatype Step<T> =
    | Finish(run: Run<T>)
    | Next(keys: seq<ApiKeyStats>, cursor: nat, clock: int, last: Fault, calls: nat)

  /** The handling of the outcome of a call made with `key`, which
      returned or raised at clock reading `done`; `calls` counts that call.
      A success and a rate limit or deactivation mark the key; only a
      generic failure sleeps `backoff` before the next attempt, and `gap` is
      the time until the loop next reads the clock. */
  function Handle<T>(ks: seq<ApiKeyStats>, cursor: nat, key: string, outcome: Outcome<T>,
                     done: int, gap: nat, backoff: nat, calls: nat): (s: Step<T>)
    ensures s.Finish? ==> |s.run.keys| == |ks|
    ensures s.Next? ==> |s.keys| == |ks|
  {
    match outcome
    case Returned(v) =>
      Finish(Run(Success(v), WithSuccess(ks, key), cursor, done, calls))
    case Failed(message) =>
      Next(ks, cursor, done + gap + backoff, Raised(message), calls)
    case HttpError(status, retryAfter) =>
      if status == 429 then
        match retryAfter
        case Malformed =>
          Finish(Run(Failure(ValueError), ks, cursor, done, calls))
        case Absent =>
          Next(WithRateLimit(ks, key, None, done), cursor, done + gap, HttpFault(status), calls)
        case Delay(n) =>
          Next(WithRateLimit(ks, key, Some(MinutesOf(n)), done), cursor, done + gap, HttpFault(status), calls)
      else if status == 403 then
        Next(WithDeactivation(ks, key), cursor, done + gap, HttpFault(status), calls)
      else
        Finish(Run(Failure(HttpFault(status)), ks, cursor, done, calls))
  }

  /** Attempt number `attempt` of `maxRetries`: take a key, call the wrapped
      request with it and handle the outcome. `respond(a, key)` is the
      outcome of the request at attempt `a` with `key`, `pick(a)` the random
      draw of that attempt's `get_next_key` and `timing(a)` how long its call
      and the handling of its outcome take. When no key is handed out the
      exception is caught without a call and the loop sleeps the backoff. */
  function Attempt<T>(ks: seq<ApiKeyStats>, cursor: nat, strategy: Strategy, clock: int,
                      attempt: nat, maxRetries: int, calls: nat,
                      respond: (nat, string) -> Outcome<T>, pick: nat -> nat, timing: nat -> Timing): (s: Step<T>)
    ensures s.Finish? ==> |s.run.keys| == |ks|
    ensures s.Next? ==> |s.keys| == |ks|
  {
    var sel := NextKey(ks, cursor, strategy, clock, pick(attempt));
    var t := timing(attempt);
    match sel.chosen
    case Failure(e) =>
      Next(sel.keys, sel.cursor, sel.clock + t.gap + Backoff(attempt, maxRetries), Raised(e), calls)
    case Success(c) =>
      var key := sel.keys[c].key;
      if key == "" then
        Next(sel.keys, sel.cursor, sel.clock + t.gap + Backoff(attempt, maxRetries), Raised(NoKeyMessage), calls)
      else
        Handle(sel.keys, sel.cursor, key, respond(attempt, key), sel.clock + t.call, t.gap,
               Backoff(attempt, maxRetries), calls + 1)
  }

  /** The remaining attempts `attempt .. maxRetries - 1`, with `last` the
      last exception caught; when they run out, that exception is raised,
      or the generic one if there was none. */
  function RetryFrom<T>(ks: seq<ApiKeyStats>, cursor: nat, strategy: Strategy, clock: int,
                        attempt: nat, maxRetries: int, last: Option<Fault>, calls: nat,
                        respond: (nat, string) -> Outcome<T>, pick: nat -> nat, timing: nat -> Timing): (run: Run<T>)
    ensures |run.keys| == |ks|
    decreases maxRetries - attempt
  {
    if attempt >= maxRetries then
      Run(Failure(last.GetOr(Raised(AllFailedMessage))), ks, cursor, clock, calls)
    else
      match Attempt(ks, cursor, strategy, clock, attempt, maxRetries, calls, respond, pick, timing)
      case Finish(run) => run
      case Next(keys, cursor', clock', fault, calls') =>
        RetryFrom(keys, cursor', strategy, clock', attempt + 1, maxRetries, Some(fault), calls', respond, pick, timing)
  }

  /** One call of the wrapped function through the wrapper. */
  function Retry<T>(ks: seq<ApiKeyStats>, cursor: nat, strategy: Strategy, clock: int, maxRetries: int,
                    respond: (nat, string) -> Outcome<T>, pick: nat -> nat, timing: nat -> Timing): (run: Run<T>)
    ensures |run.keys| == |ks|
  {
    RetryFrom(ks, cursor, strategy, clock, 0, maxRetries, None, 0, respond, pick, timing)
  }

  /** Records keep their keys, inactive keys stay inactive and request
      counts do not go down. */
  ghost predicate Kept(before: seq<ApiKeyStats>, after: seq<ApiKeyStats>) {
    |after| == |before| &&
    forall j :: 0 <= j < |before| ==>
      && after[j].key == before[j].key
      && (!before[j].isActive ==> !after[j].isActive)
      && after[j].requestCount >= before[j].requestCount
  }

  /** The records an attempt leaves, whether the wrapper stops there or not. */
  function KeysAfter<T>(s: Step<T>): seq<ApiKeyStats> {
    if s.Finish? then s.run.keys else s.keys
  }

  /** What marking keys on the pool may change: no key, no request count,
      and no inactive key becomes active. */
  ghost predicate MarksOnly(before: seq<ApiKeyStats>, after: seq<ApiKeyStats>) {
    |after| == |before| &&
    forall j :: 0 <= j < |before| ==>
      && after[j].key == before[j].key
      && after[j].requestCount == before[j].requestCount
      && (!before[j].isActive ==> !after[j].isActive)
  }

  /** After `get_next_key`, the rest of an attempt only marks keys. */
  lemma AttemptMarksOnly<T>(ks: seq<ApiKeyStats>, cursor: nat, strategy: Strategy, clock: int,
                            attempt: nat, maxRetries: int, calls: nat,
                            respond: (nat, string) -> Outcome<T>, pick: nat -> nat, timing: nat -> Timing)
    ensures MarksOnly(NextKey(ks, cursor, strategy, clock, pick(attempt)).keys,
                      KeysAfter(Attempt(ks, cursor, strategy, clock, attempt, maxRetries, calls, respond, pick, timing)))
  {
    var sel := NextKey(ks, cursor, strategy, clock, pick(attempt));
    var after := KeysAfter(Attempt(ks, cursor, strategy, clock, attempt, maxRetries, calls, respond, pick, timing));
    if sel.chosen.Success? && sel.keys[sel.chosen.value].key != "" {
      var key := sel.keys[sel.chosen.value].key;
      var done := sel.clock + timing(attempt).call;
      var outcome := respond(attempt, key);
      if outcome.Returned? {
        assert after == WithSuccess(sel.keys, key);
      } else if outcome.HttpError? && outcome.status == 429 && outcome.retryAfter.Absent? {
        assert after == WithRateLimit(sel.keys, key, None, done);
      } else if outcome.HttpError? && outcome.status == 429 && outcome.retryAfter.Delay? {
        assert after == WithRateLimit(sel.keys, key, Some(MinutesOf(outcome.retryAfter.seconds)), done);
        UpdatesMarkOnly(sel.keys, key, Some(MinutesOf(outcome.retryAfter.seconds)), done);
      } else if outcome.HttpError? && outcome.status == 403 {
        assert after == WithDeactivation(sel.keys, key);
      } else {
        assert after == sel.keys;
      }
      UpdatesMarkOnly(sel.keys, key, None, done);
    } else {
      assert after == sel.keys;
    }
  }

  lemma AttemptKeepsRecords<T>(ks: seq<ApiKeyStats>, cursor: nat, strategy: Strategy, clock: int,
                               attempt: nat, maxRetries: int, calls: nat,
                               respond: (nat, string) -> Outcome<T>, pick: nat -> nat, timing: nat -> Timing)
    ensures Kept(ks, KeysAfter(Attempt(ks, cursor, strategy, clock, attempt, maxRetries, calls, respond, pick, timing)))
  {
    NextKeyCounts(ks, cursor, strategy, clock, pick(attempt));
    AttemptMarksOnly(ks, cursor, strategy, clock, attempt, maxRetries, calls, respond, pick, timing);
  }

  /** `mark_rate_limited`, `mark_success` and `deactivate_key` keep every
      record's key, never reactivate a key and leave request counts alone. */
  lemma UpdatesMarkOnly(ks: seq<ApiKeyStats>, key: string, retryAfterMinutes: Option<int>, now: int)
    ensures MarksOnly(ks, WithRateLimit(ks, key, retryAfterMinutes, now))
    ensures MarksOnly(ks, WithSuccess(ks, key))
    ensures MarksOnly(ks, WithDeactivation(ks, key))
  {
  }

  /** An attempt returns a value exactly when `get_next_key` handed out a
      non-empty key and the request called with that key returned the
      value; the pool then records the success of that key, and the clock
      is read when the call returns. */
  lemma AttemptSuccess<T>(ks: seq<ApiKeyStats>, cursor: nat, strategy: Strategy, clock: int,
                          attempt: nat, maxRetries: int, calls: nat,
                          respond: (nat, string) -> Outcome<T>, pick: nat -> nat, timing: nat -> Timing)
    ensures var sel := NextKey(ks, cursor, strategy, clock, pick(attempt));
      var s := Attempt(ks, cursor, strategy, clock, attempt, maxRetries, calls, respond, pick, timing);
      (s.Finish? && s.run.result.Success?) <==>
        (sel.chosen.Success? && ks[sel.chosen.value].key != ""
         && respond(attempt, ks[sel.chosen.value].key).Returned?)
    ensures var sel := NextKey(ks, cursor, strategy, clock, pick(attempt));
      var s := Attempt(ks, cursor, strategy, clock, attempt, maxRetries, calls, respond, pick, timing);
      s.Finish? && s.run.result.Success? ==>
        var key := ks[sel.chosen.value].key;
        && respond(attempt, key) == Returned(s.run.result.value)
        && s.run == Run(s.run.result, WithSuccess(sel.keys, key), sel.cursor, sel.clock + timing(attempt).call, calls + 1)
  {
    NextKeyCounts(ks, cursor, strategy, clock, pick(attempt));
  }

  /** No key handed out, or the empty key: the exception is caught without
      a call, nothing is marked, and the loop sleeps the backoff. */
  lemma AttemptWithoutKey<T>(ks: seq<ApiKeyStats>, cursor: nat, strategy: Strategy, clock: int,
                             attempt: nat, maxRetries: int, calls: nat,
                             respond: (nat, string) -> Outcome<T>, pick: nat -> nat, timing: nat -> Timing)
    requires var sel := NextKey(ks, cursor, strategy, clock, pick(attempt));
      sel.chosen.Failure? || ks[sel.chosen.value].key == ""
    ensures var sel := NextKey(ks, cursor, strategy, clock, pick(attempt));
      var s := Attempt(ks, cursor, strategy, clock, attempt, maxRetries, calls, respond, pick, timing);
      && s.Next? && s.calls == calls && s.keys == sel.keys && s.cursor == sel.cursor
      && s.clock == sel.clock + timing(attempt).gap + Backoff(attempt, maxRetries)
      && s.last == (if sel.chosen.Failure? then Raised(ExhaustedMessage) else Raised(NoKeyMessage))
  {
    NextKeyCounts(ks, cursor, strategy, clock, pick(attempt));
  }

  /** A 429 with a usable `Retry-After` (or none): the key just handed out
      is put on cooldown when the call returns, for the header's whole
      minutes or the default, and the next attempt follows without sleep. */
  lemma AttemptRateLimited<T>(ks: seq<ApiKeyStats>, cursor: nat, strategy: Strategy, clock: int,
                              attempt: nat, maxRetries: int, calls: nat,
                              respond: (nat, string) -> Outcome<T>, pick: nat -> nat, timing: nat -> Timing)
    requires var sel := NextKey(ks, cursor, strategy, clock, pick(attempt));
      && sel.chosen.Success? && ks[sel.chosen.value].key != ""
      && respond(attempt, ks[sel.chosen.value].key).HttpError?
      && respond(attempt, ks[sel.chosen.value].key).status == 429
      && !respond(attempt, ks[sel.chosen.value].key).retryAfter.Malformed?
    ensures var sel := NextKey(ks, cursor, strategy, clock, pick(attempt));
      var key := ks[sel.chosen.value].key;
      var header := respond(attempt, key).retryAfter;
      var done := sel.clock + timing(attempt).call;
      var s := Attempt(ks, cursor, strategy, clock, attempt, maxRetries, calls, respond, pick, timing);
      && s == Next(WithRateLimit(sel.keys, key, if header.Delay? then Some(MinutesOf(header.seconds)) else None, done),
                   sel.cursor, done + timing(attempt).gap, HttpFault(429), calls + 1)
      && (FirstIndexOf(sel.keys, key) == Some(sel.chosen.value) ==>
            && s.keys[sel.chosen.value].rateLimitedUntil.Some?
            && s.keys[sel.chosen.value].rateLimitedUntil.value - done
               == (if header.Absent? || MinutesOf(header.seconds) == 0 then DefaultCooldown
                   else Seconds(MinutesOf(header.seconds) * 60)))
  {
    NextKeyCounts(ks, cursor, strategy, clock, pick(attempt));
  }

  /** A 403: the first record with the key is deactivated and the next
      attempt follows without sleep. */
  lemma AttemptForbidden<T>(ks: seq<ApiKeyStats>, cursor: nat, strategy: Strategy, clock: int,
                            attempt: nat, maxRetries: int, calls: nat,
                            respond: (nat, string) -> Outcome<T>, pick: nat -> nat, timing: nat -> Timing)
    requires var sel := NextKey(ks, cursor, strategy, clock, pick(attempt));
      && sel.chosen.Success? && ks[sel.chosen.value].key != ""
      && respond(attempt, ks[sel.chosen.value].key).HttpError?
      && respond(attempt, ks[sel.chosen.value].key).status == 403
    ensures var sel := NextKey(ks, cursor, strategy, clock, pick(attempt));
      var key := ks[sel.chosen.value].key;
      var done := sel.clock + timing(attempt).call;
      var s := Attempt(ks, cursor, strategy, clock, attempt, maxRetries, calls, respond, pick, timing);
      && s == Next(WithDeactivation(sel.keys, key), sel.cursor, done + timing(attempt).gap, HttpFault(403), calls + 1)
      && FirstIndexOf(sel.keys, key).Some?
      && !s.keys[FirstIndexOf(sel.keys, key).value].isActive
  {
    NextKeyCounts(ks, cursor, strategy, clock, pick(attempt));
  }

  /** Any other HTTP status stops the wrapper with that error after this
      call, and nothing is marked. */
  lemma AttemptOtherHttp<T>(ks: seq<ApiKeyStats>, cursor: nat, strategy: Strategy, clock: int,
                            attempt: nat, maxRetries: int, calls: nat,
                            respond: (nat, string) -> Outcome<T>, pick: nat -> nat, timing: nat -> Timing)
    requires var sel := NextKey(ks, cursor, strategy, clock, pick(attempt));
      && sel.chosen.Success? && ks[sel.chosen.value].key != ""
      && respond(attempt, ks[sel.chosen.value].key).HttpError?
      && respond(attempt, ks[sel.chosen.value].key).status != 429
      && respond(attempt, ks[sel.chosen.value].key).status != 403
    ensures var sel := NextKey(ks, cursor, strategy, clock, pick(attempt));
      var status := respond(attempt, ks[sel.chosen.value].key).status;
      var s := Attempt(ks, cursor, strategy, clock, attempt, maxRetries, calls, respond, pick, timing);
      s == Finish(Run(Failure(HttpFault(status)), sel.keys, sel.cursor, sel.clock + timing(attempt).call, calls + 1))
  {
    NextKeyCounts(ks, cursor, strategy, clock, pick(attempt));
  }

  /** Any other exception from the call: nothing is marked, and unless this
      is the last attempt the loop sleeps 2^attempt seconds. */
  lemma AttemptGenericFailure<T>(ks: seq<ApiKeyStats>, cursor: nat, strategy: Strategy, clock: int,
                                 attempt: nat, maxRetries: int, calls: nat,
                                 respond: (nat, string) -> Outcome<T>, pick: nat -> nat, timing: nat -> Timing)
    requires var sel := NextKey(ks, cursor, strategy, clock, pick(attempt));
      && sel.chosen.Success? && ks[sel.chosen.value].key != ""
      && respond(attempt, ks[sel.chosen.value].key).Failed?
    ensures var sel := NextKey(ks, cursor, strategy, clock, pick(attempt));
      var message := respond(attempt, ks[sel.chosen.value].key).message;
      var s := Attempt(ks, cursor, strategy, clock, attempt, maxRetries, calls, respond, pick, timing);
      && s == Next(sel.keys, sel.cursor, s.clock, Raised(message), calls + 1)
      && s.clock - sel.clock - timing(attempt).call - timing(attempt).gap
         == (if attempt < maxRetries - 1 then Seconds(Pow2(attempt)) else 0)
  {
    NextKeyCounts(ks, cursor, strategy, clock, pick(attempt));
  }

  /** An attempt makes at most one call; it waits less than one cooldown
      in `get_next_key`, then takes its call and gap time and, after a
      generic failure, the backoff. */
  lemma AttemptBounds<T>(ks: seq<ApiKeyStats>, cursor: nat, strategy: Strategy, clock: int,
                         attempt: nat, maxRetries: int, calls: nat,
                         respond: (nat, string) -> Outcome<T>, pick: nat -> nat, timing: nat -> Timing)
    ensures var s := Attempt(ks, cursor, strategy, clock, attempt, maxRetries, calls, respond, pick, timing);
      var t := timing(attempt);
      && (s.Finish? ==> s.run.calls <= calls + 1 && clock <= s.run.clock < clock + DefaultCooldown + t.call)
      && (s.Next? ==>
            && s.calls <= calls + 1
            && clock <= s.clock < clock + DefaultCooldown + t.call + t.gap + Backoff(attempt, maxRetries))
  {
  }

  /** A record that is inactive is never handed out by an attempt: its
      request count stays and it stays inactive. */
  lemma AttemptSkipsInactive<T>(ks: seq<ApiKeyStats>, cursor: nat, strategy: Strategy, clock: int,
                                attempt: nat, maxRetries: int, calls: nat,
                                respond: (nat, string) -> Outcome<T>, pick: nat -> nat, timing: nat -> Timing,
                                j: nat)
    requires j < |ks| && !ks[j].isActive
    ensures var after := KeysAfter(Attempt(ks, cursor, strategy, clock, attempt, maxRetries, calls, respond, pick, timing));
      !after[j].isActive && after[j].requestCount == ks[j].requestCount
  {
    var sel := NextKey(ks, cursor, strategy, clock, pick(attempt));
    NextKeyCounts(ks, cursor, strategy, clock, pick(attempt));
    NextKeyOutcome(ks, cursor, strategy, clock, pick(attempt));
    assert sel.keys[j].requestCount == ks[j].requestCount;
    AttemptMarksOnly(ks, cursor, strategy, clock, attempt, maxRetries, calls, respond, pick, timing);
  }

  /** Every record keeps its key, an inactive key stays inactive, and no
      request count goes down. */
  lemma {:induction false} RetryKeepsRecords<T>(ks: seq<ApiKeyStats>, cursor: nat, strategy: Strategy, clock: int,
                                                attempt: nat, maxRetries: int, last: Option<Fault>, calls: nat,
                                                respond: (nat, string) -> Outcome<T>, pick: nat -> nat, timing: nat -> Timing)
    ensures Kept(ks, RetryFrom(ks, cursor, strategy, clock, attempt, maxRetries, last, calls, respond, pick, timing).keys)
    decreases maxRetries - attempt
  {
    if attempt < maxRetries {
      AttemptKeepsRecords(ks, cursor, strategy, clock, attempt, maxRetries, calls, respond, pick, timing);
      match Attempt(ks, cursor, strategy, clock, attempt, maxRetries, calls, respond, pick, timing)
      case Finish(run) =>
      case Next(keys, cursor', clock', fault, calls') =>
        RetryKeepsRecords(keys, cursor', strategy, clock', attempt + 1, maxRetries, Some(fault), calls', respond, pick, timing);
    }
  }

  /** A key that is inactive, for instance one deactivated after a 403, is
      never handed out again in the run: its request count does not move. */
  lemma {:induction false} RetrySkipsInactive<T>(ks: seq<ApiKeyStats>, cursor: nat, strategy: Strategy, clock: int,
                                                 attempt: nat, maxRetries: int, last: Option<Fault>, calls: nat,
                                                 respond: (nat, string) -> Outcome<T>, pick: nat -> nat, timing: nat -> Timing,
                                                 j: nat)
    requires j < |ks| && !ks[j].isActive
    ensures var run := RetryFrom(ks, cursor, strategy, clock, attempt, maxRetries, last, calls, respond, pick, timing);
      !run.keys[j].isActive && run.keys[j].requestCount == ks[j].requestCount
    decreases maxRetries - attempt
  {
    if attempt < maxRetries {
      AttemptSkipsInactive(ks, cursor, strategy, clock, attempt, maxRetries, calls, respond, pick, timing, j);
      match Attempt(ks, cursor, strategy, clock, attempt, maxRetries, calls, respond, pick, timing)
      case Finish(run) =>
      case Next(keys, cursor', clock', fault, calls') =>
        RetrySkipsInactive(keys, cursor', strategy, clock', attempt + 1, maxRetries, Some(fault), calls', respond, pick, timing, j);
    }
  }

  /** A value is returned only when some attempt called the wrapped request
      with one of the pool's keys and got that value back. */
  lemma {:induction false} RetrySuccessIsResponse<T>(ks: seq<ApiKeyStats>, cursor: nat, strategy: Strategy, clock: int,
                                                     attempt: nat, maxRetries: int, last: Option<Fault>, calls: nat,
                                                     respond: (nat, string) -> Outcome<T>, pick: nat -> nat, timing: nat -> Timing)
    ensures var run := RetryFrom(ks, cursor, strategy, clock, attempt, maxRetries, last, calls, respond, pick, timing);
      run.result.Success? ==>
        exists a, j :: attempt <= a < maxRetries && 0 <= j < |ks| && respond(a, ks[j].key) == Returned(run.result.value)
    decreases maxRetries - attempt
  {
    if attempt < maxRetries {
      var sel := NextKey(ks, cursor, strategy, clock, pick(attempt));
      AttemptSuccess(ks, cursor, strategy, clock, attempt, maxRetries, calls, respond, pick, timing);
      match Attempt(ks, cursor, strategy, clock, attempt, maxRetries, calls, respond, pick, timing)
      case Finish(run) =>
        if run.result.Success? {
          assert respond(attempt, ks[sel.chosen.value].key) == Returned(run.result.value);
        }
      case Next(keys, cursor', clock', fault, calls') =>
        AttemptKeepsRecords(ks, cursor, strategy, clock, attempt, maxRetries, calls, respond, pick, timing);
        RetrySuccessIsResponse(keys, cursor', strategy, clock', attempt + 1, maxRetries, Some(fault), calls', respond, pick, timing);
    }
  }

  /** The exceptions an attempt that returns nothing can leave behind when
      every call answers 429 with a usable header. */
  predicate RateLimitFault(f: Fault) {
    f == HttpFault(429) || f == Raised(ExhaustedMessage) || f == Raised(NoKeyMessage)
  }

  /** When every call is answered with 429 (and a header `int()` accepts),
      the wrapper never returns a value: it raises the last 429 or the
      exhaustion of the pool, or the generic exception if it made no
      attempt at all. */
  lemma {:induction false} RetryAllRateLimited<T>(ks: seq<ApiKeyStats>, cursor: nat, strategy: Strategy, clock: int,
                                                  attempt: nat, maxRetries: int, last: Option<Fault>, calls: nat,
                                                  respond: (nat, string) -> Outcome<T>, pick: nat -> nat, timing: nat -> Timing)
    requires forall a, key :: respond(a, key).HttpError? && respond(a, key).status == 429
    requires forall a, key :: !respond(a, key).retryAfter.Malformed?
    requires last.Some? ==> RateLimitFault(last.value)
    ensures var run := RetryFrom(ks, cursor, strategy, clock, attempt, maxRetries, last, calls, respond, pick, timing);
      run.result.Failure? && (RateLimitFault(run.result.error) || run.result.error == Raised(AllFailedMessage))
    ensures attempt < maxRetries ==>
      RateLimitFault(RetryFrom(ks, cursor, strategy, clock, attempt, maxRetries, last, calls, respond, pick, timing).result.error)
    decreases maxRetries - attempt
  {
    if attempt < maxRetries {
      var s := Attempt(ks, cursor, strategy, clock, attempt, maxRetries, calls, respond, pick, timing);
      AttemptAllRateLimited(ks, cursor, strategy, clock, attempt, maxRetries, calls, respond, pick, timing);
      RetryAllRateLimited(s.keys, s.cursor, strategy, s.clock, attempt + 1, maxRetries, Some(s.last), s.calls, respond, pick, timing);
    }
  }

  /** When the call is answered with 429 (and a header `int()` accepts), an
      attempt always goes on to the next, with the 429 or the exhaustion of
      the pool as the exception caught. */
  lemma AttemptAllRateLimited<T>(ks: seq<ApiKeyStats>, cursor: nat, strategy: Strategy, clock: int,
                                 attempt: nat, maxRetries: int, calls: nat,
                                 respond: (nat, string) -> Outcome<T>, pick: nat -> nat, timing: nat -> Timing)
    requires forall key :: respond(attempt, key).HttpError? && respond(attempt, key).status == 429
    requires forall key :: !respond(attempt, key).retryAfter.Malformed?
    ensures var s := Attempt(ks, cursor, strategy, clock, attempt, maxRetries, calls, respond, pick, timing);
      s.Next? && RateLimitFault(s.last)
  {
    var sel := NextKey(ks, cursor, strategy, clock, pick(attempt));
    if sel.chosen.Success? {
      var key := sel.keys[sel.chosen.value].key;
      var outcome := respond(attempt, key);
      assert outcome.HttpError? && outcome.status == 429 && !outcome.retryAfter.Malformed?;
    } else {
      NextKeyOutcome(ks, cursor, strategy, clock, pick(attempt));
    }
  }

  /** The longest attempts `attempt .. maxRetries - 1` can take: each waits
      less than one cooldown in `get_next_key`, then takes its call and gap
      time and its backoff. */
  function Budget(timing: nat -> Timing, attempt: nat, maxRetries: int): int
    decreases maxRetries - attempt
  {
    if attempt >= maxRetries then 0
    else DefaultCooldown + timing(attempt).call + timing(attempt).gap + Backoff(attempt, maxRetries)
         + Budget(timing, attempt + 1, maxRetries)
  }

  /** The same without the backoff sleeps. */
  function Waits(timing: nat -> Timing, attempt: nat, maxRetries: int): int
    decreases maxRetries - attempt
  {
    if attempt >= maxRetries then 0
    else DefaultCooldown + timing(attempt).call + timing(attempt).gap + Waits(timing, attempt + 1, maxRetries)
  }

  /** At most one call per remaining attempt, and the clock moves forward by
      less than the budget. */
  lemma {:induction false} RetryBounds<T>(ks: seq<ApiKeyStats>, cursor: nat, strategy: Strategy, clock: int,
                                          attempt: nat, maxRetries: int, last: Option<Fault>, calls: nat,
                                          respond: (nat, string) -> Outcome<T>, pick: nat -> nat, timing: nat -> Timing)
    requires attempt < maxRetries
    ensures var run := RetryFrom(ks, cursor, strategy, clock, attempt, maxRetries, last, calls, respond, pick, timing);
      && run.calls <= calls + (maxRetries - attempt)
      && clock <= run.clock < clock + Budget(timing, attempt, maxRetries)
    decreases maxRetries - attempt
  {
    AttemptBounds(ks, cursor, strategy, clock, attempt, maxRetries, calls, respond, pick, timing);
    BudgetAtLeast(timing, attempt + 1, maxRetries);
    match Attempt(ks, cursor, strategy, clock, attempt, maxRetries, calls, respond, pick, timing)
    case Finish(run) =>
    case Next(keys, cursor', clock', fault, calls') =>
      if attempt + 1 < maxRetries {
        RetryBounds(keys, cursor', strategy, clock', attempt + 1, maxRetries, Some(fault), calls', respond, pick, timing);
      }
  }

  /** The backoff sleeps of the budget add up to 2^(maxRetries-1) -
      2^attempt seconds: 2^attempt + ... + 2^(maxRetries-2). */
  lemma {:induction false} BudgetClosedForm(timing: nat -> Timing, attempt: nat, maxRetries: int)
    requires attempt < maxRetries
    ensures Budget(timing, attempt, maxRetries) == Waits(timing, attempt, maxRetries) + Seconds(Pow2(maxRetries - 1) - Pow2(attempt))
    decreases maxRetries - attempt
  {
    if attempt + 1 < maxRetries {
      BudgetClosedForm(timing, attempt + 1, maxRetries);
      BackoffStep(attempt, maxRetries);
    }
  }

  /** One backoff sleep and the ones after it add up to the closed form. */
  lemma BackoffStep(attempt: nat, maxRetries: int)
    requires attempt + 1 < maxRetries
    ensures Backoff(attempt, maxRetries) + Seconds(Pow2(maxRetries - 1) - Pow2(attempt + 1))
         == Seconds(Pow2(maxRetries - 1) - Pow2(attempt))
  {
  }

  lemma {:induction false} BudgetAtLeast(timing: nat -> Timing, attempt: nat, maxRetries: int)
    ensures Budget(timing, attempt, maxRetries) >= 0
    decreases maxRetries - attempt
  {
    if attempt < maxRetries {
      BudgetAtLeast(timing, attempt + 1, maxRetries);
    }
  }

  /** The whole wrapper: with no attempts it raises the generic exception
      and touches nothing; otherwise it makes at most `maxRetries` calls and
      takes less than its budget plus 2^(maxRetries-1) - 1 seconds of
      backoff. A value is returned only if the request returned it for one
      of the pool's keys; every record keeps its key and inactive keys stay
      inactive. */
  lemma RetryWrapper<T>(ks: seq<ApiKeyStats>, cursor: nat, strategy: Strategy, clock: int, maxRetries: int,
                        respond: (nat, string) -> Outcome<T>, pick: nat -> nat, timing: nat -> Timing)
    ensures var run := Retry(ks, cursor, strategy, clock, maxRetries, respond, pick, timing);
      && (maxRetries <= 0 ==> run == Run(Failure(Raised(AllFailedMessage)), ks, cursor, clock, 0))
      && (maxRetries > 0 ==>
            && run.calls <= maxRetries
            && clock <= run.clock < clock + Budget(timing, 0, maxRetries)
            && Budget(timing, 0, maxRetries) == Waits(timing, 0, maxRetries) + Seconds(Pow2(maxRetries - 1) - 1))
      && (run.result.Success? ==>
            exists a, j :: 0 <= a < maxRetries && 0 <= j < |ks| && respond(a, ks[j].key) == Returned(run.result.value))
      && Kept(ks, run.keys)
  {
    if maxRetries > 0 {
      RetryBounds(ks, cursor, strategy, clock, 0, maxRetries, None, 0, respond, pick, timing);
      BudgetClosedForm(timing, 0, maxRetries);
    }
    RetrySuccessIsResponse(ks, cursor, strategy, clock, 0, maxRetries, None, 0, respond, pick, timing);
    RetryKeepsRecords(ks, cursor, strategy, clock, 0, maxRetries, None, 0, respond, pick, timing);
  }

  /** A single usable key that is answered 429 without a `Retry-After`
      header and then succeeds: as soon as any time passes between the mark
      and the next scan, `get_next_key` either finds the key usable or
      sleeps out the rest of its cooldown, and the next attempt returns
      the value. */
  lemma RateLimitedKeyReturns<T>(k: ApiKeyStats, cursor: nat, strategy: Strategy, clock: int,
                                 attempt: nat, maxRetries: int, last: Option<Fault>, calls: nat,
                                 respond: (nat, string) -> Outcome<T>, pick: nat -> nat, timing: nat -> Timing, v: T)
    requires k.key != "" && UsableAt(k, clock)
    requires attempt + 1 < maxRetries
    requires respond(attempt, k.key) == HttpError(429, Absent)
    requires respond(attempt + 1, k.key) == Returned(v)
    requires timing(attempt).gap > 0
    ensures RetryFrom([k], cursor, strategy, clock, attempt, maxRetries, last, calls, respond, pick, timing).result == Success(v)
  {
    var s := Attempt([k], cursor, strategy, clock, attempt, maxRetries, calls, respond, pick, timing);
    SingleKeyRateLimited(k, cursor, strategy, clock, attempt, maxRetries, calls, respond, pick, timing);
    var s' := Attempt(s.keys, s.cursor, strategy, s.clock, attempt + 1, maxRetries, s.calls, respond, pick, timing);
    SingleKeyReturns(s.keys[0], s.cursor, strategy, s.clock, attempt + 1, maxRetries, s.calls, respond, pick, timing, v);
    assert s.keys == [s.keys[0]];
    assert RetryFrom(s.keys, s.cursor, strategy, s.clock, attempt + 1, maxRetries, Some(s.last), s.calls, respond, pick, timing) == s'.run;
  }

  /** The first half: the only key is handed out, answered 429 without
      header and put on the default cooldown, which ends less than one
      cooldown after the next attempt starts. */
  lemma SingleKeyRateLimited<T>(k: ApiKeyStats, cursor: nat, strategy: Strategy, clock: int,
                                attempt: nat, maxRetries: int, calls: nat,
                                respond: (nat, string) -> Outcome<T>, pick: nat -> nat, timing: nat -> Timing)
    requires k.key != "" && UsableAt(k, clock)
    requires respond(attempt, k.key) == HttpError(429, Absent)
    requires timing(attempt).gap > 0
    ensures var s := Attempt([k], cursor, strategy, clock, attempt, maxRetries, calls, respond, pick, timing);
      && s.Next? && |s.keys| == 1 && s.keys[0].key == k.key && s.keys[0].isActive
      && s.keys[0].rateLimitedUntil.Some? && s.keys[0].rateLimitedUntil.value - s.clock < DefaultCooldown
  {
    var sel := NextKey([k], cursor, strategy, clock, pick(attempt));
    NextKeyOutcome([k], cursor, strategy, clock, pick(attempt));
    NextKeyCounts([k], cursor, strategy, clock, pick(attempt));
    assert sel.chosen == Success(0);
    var done := sel.clock + timing(attempt).call;
    var marked := WithRateLimit(sel.keys, k.key, None, done);
    assert Attempt([k], cursor, strategy, clock, attempt, maxRetries, calls, respond, pick, timing)
        == Next(marked, sel.cursor, done + timing(attempt).gap, HttpFault(429), calls + 1);
  }

  /** The second half: an active key whose cooldown, if any, ends less
      than one cooldown from now is handed out, and its response returned. */
  lemma SingleKeyReturns<T>(k: ApiKeyStats, cursor: nat, strategy: Strategy, clock: int,
                            attempt: nat, maxRetries: int, calls: nat,
                            respond: (nat, string) -> Outcome<T>, pick: nat -> nat, timing: nat -> Timing, v: T)
    requires k.key != "" && k.isActive
    requires k.rateLimitedUntil.Some? ==> k.rateLimitedUntil.value - clock < DefaultCooldown
    requires respond(attempt, k.key) == Returned(v)
    ensures var s := Attempt([k], cursor, strategy, clock, attempt, maxRetries, calls, respond, pick, timing);
      s.Finish? && s.run.result == Success(v)
  {
    var sel := NextKey([k], cursor, strategy, clock, pick(attempt));
    NextKeyCounts([k], cursor, strategy, clock, pick(attempt));
    if UsableAt(k, clock) {
      NextKeyOutcome([k], cursor, strategy, clock, pick(attempt));
      assert UsableAt([k][0], sel.clock);
    } else {
      WaitThenSelect([k], cursor, strategy, clock, pick(attempt), 0);
    }
    assert sel.chosen == Success(0);
    assert sel.keys[0].key == k.key;
  }

  /** The `except` clauses of the loop body of `wrapper`, and the sleep
      after them, for a call made with `key` that returned or raised at
      clock reading `done`: `finished` is what the wrapper returns or
      raises when it stops here; otherwise `fault` is the exception caught
      and the loop goes on at clock reading `after`. */
  method HandleOutcome<T>(pool: ApiKeyPool, key: string, outcome: Outcome<T>,
                          done: int, gap: nat, backoff: nat, ghost calls: nat)
    returns (finished: Option<Result<T, Fault>>, fault: Fault, after: int)
    modifies pool
    ensures Handle(old(pool.keysStats), old(pool.currentIndex), key, outcome, done, gap, backoff, calls)
         == match finished
            case Some(res) => Finish(Run(res, pool.keysStats, pool.currentIndex, after, calls))
            case None => Next(pool.keysStats, pool.currentIndex, after, fault, calls)
  {
    finished := None;
    after := done;
    match outcome {
      case Returned(v) =>
        pool.MarkSuccess(key);
        return Some(Success(v)), Raised(""), after;
      case Failed(message) =>
        fault := Raised(message);
      case HttpError(status, retryAfter) =>
        fault := HttpFault(status);
        if status == 429 {
          if retryAfter.Malformed? {
            return Some(Failure(ValueError)), fault, after;
          }
          var minutes := if retryAfter.Delay? then Some(MinutesOf(retryAfter.seconds)) else None;
          pool.MarkRateLimited(key, minutes, after);
          return None, fault, after + gap;
        } else if status == 403 {
          pool.DeactivateKey(key);
          return None, fault, after + gap;
        } else {
          // `break`, then `raise last_exception`, which is this error
          return Some(Failure(fault)), fault, after;
        }
    }
    after := after + gap + backoff;
  }

  /** One pass of the loop body of `wrapper`, from clock reading `clock`:
      `finished` is what the wrapper returns or raises when it stops here;
      otherwise `fault` is the exception caught and the loop goes on at
      clock reading `after`. */
  method AttemptOnce<T>(pool: ApiKeyPool, attempt: nat, maxRetries: int, respond: (nat, string) -> Outcome<T>,
                        pick: nat -> nat, timing: nat -> Timing, clock: int, ghost calls: nat)
    returns (finished: Option<Result<T, Fault>>, fault: Fault, after: int, ghost calls': nat)
    modifies pool
    ensures var step := Attempt(old(pool.keysStats), old(pool.currentIndex), StrategyOf(pool.strategy), clock,
                                attempt, maxRetries, calls, respond, pick, timing);
      step == match finished
              case Some(res) => Finish(Run(res, pool.keysStats, pool.currentIndex, after, calls'))
              case None => Next(pool.keysStats, pool.currentIndex, after, fault, calls')
  {
    ghost var step := Attempt(pool.keysStats, pool.currentIndex, StrategyOf(pool.strategy), clock,
                              attempt, maxRetries, calls, respond, pick, timing);
    var key;
    key, after := pool.GetNextKey(clock, pick(attempt));
    var backoff := if attempt < maxRetries - 1 then Seconds(Pow2(attempt)) else 0;
    assert backoff == Backoff(attempt, maxRetries);
    if key.Failure? || key.value == "" {
      fault := if key.Failure? then Raised(key.error) else Raised(NoKeyMessage);
      return None, fault, after + timing(attempt).gap + backoff, calls;
    }
    calls' := calls + 1;
    var done := after + timing(attempt).call;
    assert step == Handle(pool.keysStats, pool.currentIndex, key.value, respond(attempt, key.value),
                          done, timing(attempt).gap, backoff, calls');
    finished, fault, after := HandleOutcome(pool, key.value, respond(attempt, key.value),
                                            done, timing(attempt).gap, backoff, calls');
  }

  /** The decorated call `wrapper(*args, **kwargs)` on `pool`, starting at
      clock reading `now`; `clock` is the reading when it returns or raises. */
  method ApiRequestWithRotation<T>(pool: ApiKeyPool, maxRetries: int, respond: (nat, string) -> Outcome<T>,
                                   pick: nat -> nat, timing: nat -> Timing, now: int)
    returns (r: Result<T, Fault>, clock: int)
    modifies pool
    ensures var run := Retry(old(pool.keysStats), old(pool.currentIndex), StrategyOf(pool.strategy), now, maxRetries, respond, pick, timing);
      && r == run.result && clock == run.clock
      && pool.keysStats == run.keys && pool.currentIndex == run.cursor
  {
    ghost var run := Retry(pool.keysStats, pool.currentIndex, StrategyOf(pool.strategy), now, maxRetries, respond, pick, timing);
    ghost var calls: nat := 0;
    var last: Option<Fault> := None;
    clock := now;
    var attempt: nat := 0;
    while attempt < maxRetries
      invariant RetryFrom(pool.keysStats, pool.currentIndex, StrategyOf(pool.strategy), clock,
                          attempt, maxRetries, last, calls, respond, pick, timing) == run
      decreases maxRetries - attempt
    {
      var finished, fault;
      finished, fault, clock, calls := AttemptOnce(pool, attempt, maxRetries, respond, pick, timing, clock, calls);
      if finished.Some? {
        return finished.value, clock;
      }
      last := Some(fault);
      attempt := attempt + 1;
    }
    r := Failure(last.GetOr(Raised(AllFailedMessage)));
  }
}
