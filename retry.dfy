/**
 * The retry executor of RedditCLI (`_execute_with_retry`) and the startup
 * connection check (`_test_connection_with_retry`).
 *
 * The wrapped PRAW call is abstracted as `op`: `op(k)` is what the call does
 * on its k-th invocation (counting from 0), either a value or one of the three
 * kinds of exception the source tells apart. `time.sleep` is recorded as the
 * list of durations slept, in order.
 */
module Retry {
  import opened Wrappers
  import opened Text

  /** What one invocation of the wrapped operation does. */
  datatype Outcome<T> =
    | Success(value: T)
    | ApiErr(text: string)     // praw.exceptions.RedditAPIException, with str(e)
    | ClientErr(text: string)  // praw.exceptions.ClientException, with str(e)
    | OtherErr(text: string)   // any other Exception, with str(e)

  /** The classification of a failure; it decides the message and whether to retry. */
  datatype Kind =
    | RateLimited   // RedditAPIException mentioning "RATE_LIMIT" or "429"
    | ApiError      // any other RedditAPIException
    | Unauthorized  // ClientException mentioning "401" or "unauthorized" in any case
    | ClientError   // any other ClientException
    | Unexpected    // anything else

  /** The substring tests of the `except` clauses, in their order. */
  function Classify<T>(o: Outcome<T>): Kind
    requires !o.Success?
  {
    match o
    case ApiErr(text) =>
      if Contains(text, "RATE_LIMIT") || Contains(text, "429") then RateLimited else ApiError
    case ClientErr(text) =>
      if Contains(text, "401") || Contains(Lower(text), "unauthorized") then Unauthorized else ClientError
    case OtherErr(_) => Unexpected
  }

  /** Only rate limits and unexpected errors are tried again. */
  predicate Retryable(k: Kind) {
    k == RateLimited || k == Unexpected
  }

  /** The invocation failed and the executor would retry it if attempts remain. */
  predicate RetryableFailure<T>(o: Outcome<T>) {
    !o.Success? && Retryable(Classify(o))
  }

  /**
   * The classification depends only on the exception class and its text:
   * rate-limit markers count only on a RedditAPIException and are
   * case-sensitive, the 401 test counts only on a ClientException and its
   * "unauthorized" test ignores case, and every other exception is retried.
   */
  lemma ClassifySpec<T>(o: Outcome<T>)
    requires !o.Success?
    ensures RetryableFailure(o) <==>
      o.OtherErr? ||
      (o.ApiErr? && ((exists i :: OccursAt(o.text, "RATE_LIMIT", i)) || (exists i :: OccursAt(o.text, "429", i))))
    ensures o.ClientErr? ==>
      (Classify(o) == Unauthorized <==>
        (exists i :: OccursAt(o.text, "401", i)) || (exists i :: OccursAt(Lower(o.text), "unauthorized", i)))
    ensures o.ClientErr? ==> Classify(o) in {Unauthorized, ClientError}
  {
    ContainsIff(o.text, "RATE_LIMIT");
    ContainsIff(o.text, "429");
    ContainsIff(o.text, "401");
    ContainsIff(Lower(o.text), "unauthorized");
  }

  /** How a call through the executor ended. */
  datatype Verdict<T> =
    | Value(value: T)    // the operation returned this value
    | GaveUp(kind: Kind) // the executor returned None after a failure of this kind
    | NoAttempt          // the loop never ran (max_retries <= 0) and the executor returned None
    | SleepFailed        // `time.sleep` raised ValueError on a negative delay; it escapes the executor
  {
    /** What `_execute_with_retry` returns, when it returns at all. */
    function ToOption(): Option<T>
      requires !SleepFailed?
    {
      if Value? then Some(value) else None
    }
  }

  /** Everything an execution does: its verdict, how many times it invoked the operation, and its sleeps. */
  datatype Run<T> = Run(verdict: Verdict<T>, calls: nat, sleeps: seq<int>)

  function Pow2(n: nat): nat {
    if n == 0 then 1 else 2 * Pow2(n - 1)
  }

  /**
   * The first `n` sleeps of the backoff schedule: the first lasts `delay`
   * and each later one twice the one before (`delay *= 2`).
   */
  function Backoff(delay: int, n: nat): (waits: seq<int>)
    ensures |waits| == n
    ensures n > 0 ==> waits[0] == delay
    ensures forall k :: 0 <= k < n - 1 ==> waits[k + 1] == 2 * waits[k]
  {
    seq(n, k requires 0 <= k < n => delay * Pow2(k))
  }

  /**
   * The executor from attempt number `attempt` on, with `delay` the current
   * backoff: the specification of the loop in `ExecuteWithRetry`.
   */
  function Attempts<T>(op: nat -> Outcome<T>, maxRetries: int, attempt: nat, delay: int): Run<T>
    decreases maxRetries - attempt
  {
    if maxRetries <= attempt then Run(NoAttempt, 0, [])
    else
      var o := op(attempt);
      if o.Success? then Run(Value(o.value), 1, [])
      else if Retryable(Classify(o)) && attempt < maxRetries - 1 then
        if delay < 0 then Run(SleepFailed, 1, [])
        else
          var rest := Attempts(op, maxRetries, attempt + 1, delay * 2);
          Run(rest.verdict, rest.calls + 1, [delay] + rest.sleeps)
      else Run(GaveUp(Classify(o)), 1, [])
  }

  /** `_execute_with_retry(func, max_retries=maxRetries, delay=delay)`. */
  function Execute<T>(op: nat -> Outcome<T>, maxRetries: int := 3, delay: int := 5): Run<T> {
    Attempts(op, maxRetries, 0, delay)
  }

  /** The whole run, given `calls` invocations and `sleeps` so far and the run of the rest. */
  function Resume<T>(calls: nat, sleeps: seq<int>, rest: Run<T>): Run<T> {
    Run(rest.verdict, calls + rest.calls, sleeps + rest.sleeps)
  }

  /** The verdict when the invocation ends the loop. */
  function Settle<T>(o: Outcome<T>): Verdict<T> {
    if o.Success? then Value(o.value) else GaveUp(Classify(o))
  }

  /** The first invocation fails in a way that is retried and the retry would sleep a negative delay. */
  predicate SleepFails<T>(op: nat -> Outcome<T>, maxRetries: int, delay: int) {
    delay < 0 && 1 < maxRetries && RetryableFailure(op(0))
  }

  /**
   * An independent description of a run: with no attempts allowed nothing is
   * called; when the first retry would sleep a negative delay, the one
   * invocation ends in the ValueError of `time.sleep`; otherwise every
   * invocation but the last failed in a retryable way, the last one
   * succeeded, failed in a way that is not retried, or used up the attempts,
   * the verdict is decided by the last one, and the sleeps are the backoff
   * schedule, one between consecutive invocations.
   */
  ghost predicate IsRunOf<T>(op: nat -> Outcome<T>, maxRetries: int, delay: int, r: Run<T>) {
    if maxRetries <= 0 then r == Run(NoAttempt, 0, [])
    else if SleepFails(op, maxRetries, delay) then r == Run(SleepFailed, 1, [])
    else
      1 <= r.calls <= maxRetries &&
      (forall j :: 0 <= j < r.calls - 1 ==> RetryableFailure(op(j))) &&
      (!RetryableFailure(op(r.calls - 1)) || r.calls == maxRetries) &&
      r.verdict == Settle(op(r.calls - 1)) &&
      r.sleeps == Backoff(delay, r.calls - 1)
  }

  /** `Attempts` from a given attempt number: which invocations it makes and how it decides. */
  lemma {:induction false} AttemptsShape<T>(op: nat -> Outcome<T>, maxRetries: int, attempt: nat, delay: int)
    requires attempt < maxRetries
    requires delay < 0 ==> !RetryableFailure(op(attempt)) || attempt == maxRetries - 1
    ensures var r := Attempts(op, maxRetries, attempt, delay);
      1 <= r.calls <= maxRetries - attempt &&
      (forall j :: attempt <= j < attempt + r.calls - 1 ==> RetryableFailure(op(j))) &&
      (!RetryableFailure(op(attempt + r.calls - 1)) || attempt + r.calls == maxRetries) &&
      r.verdict == Settle(op(attempt + r.calls - 1))
    decreases maxRetries - attempt
  {
    var o := op(attempt);
    if !o.Success? && Retryable(Classify(o)) && attempt < maxRetries - 1 {
      AttemptsShape(op, maxRetries, attempt + 1, delay * 2);
    }
  }

  /** `Attempts` sleeps once between consecutive invocations, following the backoff schedule. */
  lemma {:induction false} AttemptsSleeps<T>(op: nat -> Outcome<T>, maxRetries: int, attempt: nat, delay: int)
    requires attempt < maxRetries
    requires delay < 0 ==> !RetryableFailure(op(attempt)) || attempt == maxRetries - 1
    ensures var r := Attempts(op, maxRetries, attempt, delay);
      r.calls >= 1 && r.sleeps == Backoff(delay, r.calls - 1)
    decreases maxRetries - attempt
  {
    var o := op(attempt);
    if !o.Success? && Retryable(Classify(o)) && attempt < maxRetries - 1 {
      AttemptsSleeps(op, maxRetries, attempt + 1, delay * 2);
      var rest := Attempts(op, maxRetries, attempt + 1, delay * 2);
      var r := Attempts(op, maxRetries, attempt, delay);
      assert r.sleeps == [delay] + rest.sleeps;
      forall k | 0 <= k < r.calls - 1
        ensures r.sleeps[k] == delay * Pow2(k)
      {
        if k > 0 {
          assert r.sleeps[k] == rest.sleeps[k - 1] == delay * 2 * Pow2(k - 1);
        }
      }
      assert r.sleeps == Backoff(delay, r.calls - 1);
    }
  }

  /** The executor does exactly what `IsRunOf` describes. */
  lemma ExecuteIsRun<T>(op: nat -> Outcome<T>, maxRetries: int, delay: int)
    ensures IsRunOf(op, maxRetries, delay, Execute(op, maxRetries, delay))
  {
    if maxRetries > 0 && !SleepFails(op, maxRetries, delay) {
      AttemptsShape(op, maxRetries, 0, delay);
      AttemptsSleeps(op, maxRetries, 0, delay);
    }
  }

  /** `IsRunOf` allows only one run: the description determines the executor completely. */
  lemma RunIsUnique<T>(op: nat -> Outcome<T>, maxRetries: int, delay: int, r1: Run<T>, r2: Run<T>)
    requires IsRunOf(op, maxRetries, delay, r1) && IsRunOf(op, maxRetries, delay, r2)
    ensures r1 == r2
  {
  }

  /** Hence a run is the executor's exactly when it meets the description. */
  lemma ExecuteCharacterized<T>(op: nat -> Outcome<T>, maxRetries: int, delay: int, r: Run<T>)
    ensures Execute(op, maxRetries, delay) == r <==> IsRunOf(op, maxRetries, delay, r)
  {
    ExecuteIsRun(op, maxRetries, delay);
    if IsRunOf(op, maxRetries, delay, r) {
      RunIsUnique(op, maxRetries, delay, r, Execute(op, maxRetries, delay));
    }
  }

  /**
   * Call bound and backoff: the operation is invoked at most `maxRetries`
   * times (never when `maxRetries <= 0`), there is exactly one sleep between
   * consecutive invocations and none after the last, and the k-th sleep lasts
   * `delay * 2^k`.
   */
  lemma ExecuteBounds<T>(op: nat -> Outcome<T>, maxRetries: int, delay: int)
    ensures var r := Execute(op, maxRetries, delay);
      (maxRetries <= 0 ==> r.calls == 0 && r.sleeps == [] && r.verdict == NoAttempt) &&
      (maxRetries > 0 ==> 1 <= r.calls <= maxRetries && |r.sleeps| == r.calls - 1) &&
      (forall k :: 0 <= k < |r.sleeps| ==> r.sleeps[k] == delay * Pow2(k))
  {
    ExecuteIsRun(op, maxRetries, delay);
  }

  /**
   * The executor returns a value exactly when some attempt within the limit
   * succeeds after only retryable failures, and then it returns the value of
   * that first success after exactly that many invocations.
   */
  lemma ExecuteReturnsFirstSuccess<T>(op: nat -> Outcome<T>, maxRetries: int, delay: int, k: nat)
    requires k < maxRetries
    requires k == 0 || delay >= 0
    requires op(k).Success?
    requires forall j :: 0 <= j < k ==> RetryableFailure(op(j))
    ensures Execute(op, maxRetries, delay).verdict == Value(op(k).value)
    ensures Execute(op, maxRetries, delay).calls == k + 1
  {
    ExecuteIsRun(op, maxRetries, delay);
  }

  /** Conversely, a returned value comes from a success preceded only by retryable failures. */
  lemma ExecuteValueHasSource<T>(op: nat -> Outcome<T>, maxRetries: int, delay: int)
    requires Execute(op, maxRetries, delay).verdict.Value?
    ensures var r := Execute(op, maxRetries, delay);
      op(r.calls - 1) == Success(r.verdict.value) &&
      forall j :: 0 <= j < r.calls - 1 ==> RetryableFailure(op(j))
  {
    ExecuteIsRun(op, maxRetries, delay);
  }

  /**
   * A failure that is not retried (a RedditAPIException without rate-limit
   * marker, or any ClientException) ends the call after that one invocation,
   * without sleeping, and the executor returns None.
   */
  lemma ExecuteStopsOnFatal<T>(op: nat -> Outcome<T>, maxRetries: int, delay: int)
    requires maxRetries > 0
    requires !op(0).Success? && !RetryableFailure(op(0))
    ensures Execute(op, maxRetries, delay) == Run(GaveUp(Classify(op(0))), 1, [])
    ensures Execute(op, maxRetries, delay).verdict.ToOption() == None
  {
  }

  /** A failure of any kind on the last allowed attempt gives None. */
  lemma ExecuteFailsOnLastAttempt<T>(op: nat -> Outcome<T>, maxRetries: int, delay: int)
    requires maxRetries > 0
    requires maxRetries == 1 || delay >= 0
    requires forall j :: 0 <= j < maxRetries - 1 ==> RetryableFailure(op(j))
    requires !op(maxRetries - 1).Success?
    ensures Execute(op, maxRetries, delay).verdict == GaveUp(Classify(op(maxRetries - 1)))
    ensures Execute(op, maxRetries, delay).calls == maxRetries
    ensures |Execute(op, maxRetries, delay).sleeps| == maxRetries - 1
  {
    ExecuteIsRun(op, maxRetries, delay);
  }

  /**
   * A negative delay is harmless until the first retry: then `time.sleep`
   * raises ValueError after the one invocation, and nothing is returned.
   */
  lemma ExecuteNegativeDelay<T>(op: nat -> Outcome<T>, maxRetries: int, delay: int)
    requires delay < 0
    ensures SleepFails(op, maxRetries, delay) <==> Execute(op, maxRetries, delay).verdict == SleepFailed
    ensures SleepFails(op, maxRetries, delay) ==> Execute(op, maxRetries, delay) == Run(SleepFailed, 1, [])
    ensures Execute(op, maxRetries, delay).sleeps == []
  {
    ExecuteIsRun(op, maxRetries, delay);
  }

  /** One retry step of the loop: a retryable failure with attempts left sleeps `delay` and doubles it. */
  lemma RetryStep<T>(op: nat -> Outcome<T>, maxRetries: int, attempt: nat, delay: int, sleeps: seq<int>)
    requires attempt < maxRetries - 1 && delay >= 0
    requires RetryableFailure(op(attempt))
    ensures Resume(attempt, sleeps, Attempts(op, maxRetries, attempt, delay)) ==
      Resume(attempt + 1, sleeps + [delay], Attempts(op, maxRetries, attempt + 1, delay * 2))
  {
    var rest := Attempts(op, maxRetries, attempt + 1, delay * 2);
    assert sleeps + ([delay] + rest.sleeps) == (sleeps + [delay]) + rest.sleeps;
  }

  /** A final step of the loop: a success, a failure that is not retried, or a failure on the last attempt. */
  lemma FinalStep<T>(op: nat -> Outcome<T>, maxRetries: int, attempt: nat, delay: int, sleeps: seq<int>)
    requires attempt < maxRetries
    requires !RetryableFailure(op(attempt)) || attempt == maxRetries - 1
    ensures Resume(attempt, sleeps, Attempts(op, maxRetries, attempt, delay)) ==
      Run(Settle(op(attempt)), attempt + 1, sleeps)
  {
  }

  /** A retry step with a negative delay: `time.sleep` raises and the loop ends without sleeping. */
  lemma SleepFailStep<T>(op: nat -> Outcome<T>, maxRetries: int, attempt: nat, delay: int, sleeps: seq<int>)
    requires attempt < maxRetries - 1 && delay < 0
    requires RetryableFailure(op(attempt))
    ensures Resume(attempt, sleeps, Attempts(op, maxRetries, attempt, delay)) == Run(SleepFailed, attempt + 1, sleeps)
  {
  }

  /**
   * `_execute_with_retry`: invokes `op` until it succeeds, fails in a way that
   * is not retried, or `maxRetries` attempts are used up, sleeping `delay`,
   * `2 * delay`, ... between attempts.
   */
  method ExecuteWithRetry<T>(op: nat -> Outcome<T>, maxRetries: int := 3, delay: int := 5)
    returns (verdict: Verdict<T>, calls: nat, sleeps: seq<int>)
    ensures Run(verdict, calls, sleeps) == Execute(op, maxRetries, delay)
  {
    var attempt: nat := 0;
    var wait := delay;
    sleeps := [];
    while attempt < maxRetries
      invariant attempt == 0 || attempt < maxRetries
      invariant attempt > 0 ==> wait >= 0
      invariant Execute(op, maxRetries, delay) == Resume(attempt, sleeps, Attempts(op, maxRetries, attempt, wait))
      decreases maxRetries - attempt
    {
      var outcome := op(attempt);
      if outcome.Success? {
        FinalStep(op, maxRetries, attempt, wait, sleeps);
        return Value(outcome.value), attempt + 1, sleeps;
      }
      // The `except` clauses, in their order, decide the kind of failure.
      var kind := Classify(outcome);
      if Retryable(kind) && attempt < maxRetries - 1 {
        if wait < 0 {
          SleepFailStep(op, maxRetries, attempt, wait, sleeps);
          return SleepFailed, attempt + 1, sleeps;
        }
        RetryStep(op, maxRetries, attempt, wait, sleeps);
        sleeps := sleeps + [wait];
        wait := wait * 2;
        attempt := attempt + 1;
      } else {
        FinalStep(op, maxRetries, attempt, wait, sleeps);
        return GaveUp(kind), attempt + 1, sleeps;
      }
    }
    return NoAttempt, 0, [];
  }

  /** How the startup connection check ends. */
  datatype Connection =
    | Connected          // `return True` after `reddit.user.me()` succeeded
    | Exit(status: int)  // `sys.exit(status)`
    | NotConnected       // `return False`: the loop never ran
    | SleepError         // `time.sleep` raised ValueError on a negative delay; it escapes the check

  /** The connection check ends like the executor, with `sys.exit(1)` where the executor returns None. */
  function ConnectionOf<T>(v: Verdict<T>): Connection {
    match v
    case Value(_) => Connected
    case GaveUp(_) => Exit(1)
    case NoAttempt => NotConnected
    case SleepFailed => SleepError
  }

  /**
   * `_test_connection_with_retry`: the same attempts, classification and
   * backoff as the executor, on `me`, the `reddit.user.me()` call; every
   * terminal failure exits with status 1.
   */
  method TestConnectionWithRetry<U>(me: nat -> Outcome<U>, maxRetries: int := 3, delay: int := 5)
    returns (status: Connection, calls: nat, sleeps: seq<int>)
    ensures var run := Execute(me, maxRetries, delay);
      status == ConnectionOf(run.verdict) && calls == run.calls && sleeps == run.sleeps
  {
    var attempt: nat := 0;
    var wait := delay;
    sleeps := [];
    while attempt < maxRetries
      invariant attempt == 0 || attempt < maxRetries
      invariant attempt > 0 ==> wait >= 0
      invariant Execute(me, maxRetries, delay) == Resume(attempt, sleeps, Attempts(me, maxRetries, attempt, wait))
      decreases maxRetries - attempt
    {
      var outcome := me(attempt);
      if outcome.Success? {
        FinalStep(me, maxRetries, attempt, wait, sleeps);
        return Connected, attempt + 1, sleeps;
      }
      // The same `except` clauses; for a ClientException the 401 test only picks the message.
      if RetryableFailure(outcome) && attempt < maxRetries - 1 {
        if wait < 0 {
          SleepFailStep(me, maxRetries, attempt, wait, sleeps);
          return SleepError, attempt + 1, sleeps;
        }
        RetryStep(me, maxRetries, attempt, wait, sleeps);
        sleeps := sleeps + [wait];
        wait := wait * 2;
        attempt := attempt + 1;
      } else {
        FinalStep(me, maxRetries, attempt, wait, sleeps);
        return Exit(1), attempt + 1, sleeps;
      }
    }
    return NotConnected, 0, [];
  }

  /**
   * The connection check connects exactly when some attempt succeeds after
   * only retryable failures, exits with status 1 on every terminal failure,
   * returns False only when `maxRetries <= 0`, and raises only when the
   * first retry would sleep a negative delay.
   */
  lemma ConnectionOutcomes<U>(me: nat -> Outcome<U>, maxRetries: int, delay: int)
    ensures var c := ConnectionOf(Execute(me, maxRetries, delay).verdict);
      (c == NotConnected <==> maxRetries <= 0) &&
      (c == Connected <==> exists k :: 0 <= k < maxRetries && (k == 0 || delay >= 0) && me(k).Success? &&
                                      forall j :: 0 <= j < k ==> RetryableFailure(me(j))) &&
      (c == SleepError <==> 0 < maxRetries && SleepFails(me, maxRetries, delay)) &&
      (c.Exit? ==> c.status == 1)
  {
    ExecuteIsRun(me, maxRetries, delay);
    var r := Execute(me, maxRetries, delay);
    if r.verdict.Value? {
      var k := r.calls - 1;
      if k > 0 {
        assert RetryableFailure(me(0));
      }
      assert 0 <= k < maxRetries && (k == 0 || delay >= 0) && me(k).Success? &&
             forall j :: 0 <= j < k ==> RetryableFailure(me(j));
    }
    if exists k :: 0 <= k < maxRetries && (k == 0 || delay >= 0) && me(k).Success? &&
                   forall j :: 0 <= j < k ==> RetryableFailure(me(j)) {
      var k :| 0 <= k < maxRetries && (k == 0 || delay >= 0) && me(k).Success? &&
               forall j :: 0 <= j < k ==> RetryableFailure(me(j));
      ExecuteReturnsFirstSuccess(me, maxRetries, delay, k);
    }
  }

  /** `self._execute_with_retry(...) or []`: a failed call reads as the empty list. */
  function OrEmpty<X>(r: Option<seq<X>>): (xs: seq<X>)
    ensures r == None ==> xs == []
    ensures r.Some? ==> xs == r.value
  {
    if r.Some? && r.value != [] then r.value else []
  }

  /** `self._execute_with_retry(...) or False`: a failed call reads as False. */
  function OrFalse(r: Option<bool>): (b: bool)
    ensures b <==> r == Some(true)
  {
    if r.Some? && r.value then r.value else false
  }
}
