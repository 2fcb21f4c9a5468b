/** Model of the `retry` and `timer` decorators. The wrapped function is
    represented by what each of its calls does: `outcome(k)` is the
    behaviour of the k-th call (k counts from 1). Sleeping and the clock
    are not performed; the sleeps are recorded as durations. */
module Decorators {
  import opened Wrappers

  /** What one call of the wrapped function does. `Raised` is an
      `Exception`, which the retry wrapper catches; `Escaped` is a
      `BaseException` outside that class (`KeyboardInterrupt`,
      `SystemExit`, `GeneratorExit`), which it does not. */
  datatype Call<T> = Returned(value: T) | Raised | Escaped

  /** What the retry wrapper gives back to its caller. */
  datatype Verdict<T> =
    | Value(value: T)  // the result of the first call that returned
    | NoneReturned     // Python `None`: every attempt raised, or none was made
    | SleepRejected    // `time.sleep` raised `ValueError` on a negative duration
    | Propagated       // the call raised a `BaseException` the wrapper does not catch

  /** One invocation of the retry wrapper: how many calls it made, the
      sleeps between them, and what it gave back. */
  datatype RetryRun<T> = RetryRun(calls: nat, sleeps: seq<real>, verdict: Verdict<T>)

  function Pow(b: real, n: nat): real {
    if n == 0 then 1.0 else b * Pow(b, n - 1)
  }

  /** The pause after failed attempt `attempt`: `delay * backoff ** (attempt - 1)`. */
  function SleepTime(delay: real, backoff: real, attempt: nat): real
    requires attempt >= 1
  {
    delay * Pow(backoff, attempt - 1)
  }

  /** `r` is a run of the retry loop from attempt number `attempt` on:
      the calls are attempts `attempt` to `attempt + calls - 1`, all but
      the last raised, a sleep on the schedule follows each of those, and
      the last call decides the verdict. Every sleep taken is
      non-negative, since `time.sleep` rejects a negative one. */
  ghost predicate RunFits<T>(outcome: nat -> Call<T>, maxAttempts: int, delay: real, backoff: real,
                       attempt: nat, r: RetryRun<T>)
    requires attempt >= 1
  {
    && (r.calls == 0 <==> maxAttempts < attempt)
    && (r.calls == 0 ==> r == RetryRun(0, [], NoneReturned))
    && (r.calls >= 1 ==> attempt + r.calls - 1 <= maxAttempts && |r.sleeps| == r.calls - 1)
    && (forall j :: 0 <= j < |r.sleeps| ==> r.sleeps[j] == SleepTime(delay, backoff, attempt + j))
    && (forall j :: 0 <= j < |r.sleeps| ==> r.sleeps[j] >= 0.0)
    && (forall j :: attempt <= j < attempt + r.calls - 1 ==> outcome(j).Raised?)
    && (r.verdict.Value? ==> r.calls >= 1 && outcome(attempt + r.calls - 1) == Returned(r.verdict.value))
    && (r.verdict.NoneReturned? && r.calls >= 1 ==>
          outcome(attempt + r.calls - 1).Raised? && attempt + r.calls - 1 == maxAttempts)
    && (r.verdict.Propagated? ==> r.calls >= 1 && outcome(attempt + r.calls - 1).Escaped?)
    && (r.verdict.SleepRejected? ==>
          && r.calls >= 1
          && outcome(attempt + r.calls - 1).Raised?
          && attempt + r.calls - 1 < maxAttempts
          && SleepTime(delay, backoff, attempt + r.calls - 1) < 0.0)
  }

  /** The retry loop from attempt number `attempt` on. */
  function RetryFrom<T>(outcome: nat -> Call<T>, maxAttempts: int, delay: real, backoff: real,
                        attempt: nat): RetryRun<T>
    requires attempt >= 1
    decreases if maxAttempts >= attempt then maxAttempts - attempt + 1 else 0
  {
    if attempt > maxAttempts then RetryRun(0, [], NoneReturned)
    else match outcome(attempt)
      case Returned(v) => RetryRun(1, [], Value(v))
      case Escaped => RetryRun(1, [], Propagated)
      case Raised =>
        if attempt < maxAttempts then
          var t := SleepTime(delay, backoff, attempt);
          if t < 0.0 then RetryRun(1, [], SleepRejected)
          else
            var rest := RetryFrom(outcome, maxAttempts, delay, backoff, attempt + 1);
            RetryRun(1 + rest.calls, [t] + rest.sleeps, rest.verdict)
        else RetryRun(1, [], NoneReturned)
  }

  /** The loop's run pins down the whole behaviour described by `RunFits`. */
  lemma {:induction false} RetryFromFits<T>(outcome: nat -> Call<T>, maxAttempts: int, delay: real, backoff: real,
                                            attempt: nat)
    requires attempt >= 1
    ensures RunFits(outcome, maxAttempts, delay, backoff, attempt, RetryFrom(outcome, maxAttempts, delay, backoff, attempt))
    decreases if maxAttempts >= attempt then maxAttempts - attempt + 1 else 0
  {
    if attempt < maxAttempts && outcome(attempt).Raised? && SleepTime(delay, backoff, attempt) >= 0.0 {
      var rest := RetryFrom(outcome, maxAttempts, delay, backoff, attempt + 1);
      RetryFromFits(outcome, maxAttempts, delay, backoff, attempt + 1);
      assert RetryFrom(outcome, maxAttempts, delay, backoff, attempt)
             == RetryRun(1 + rest.calls, [SleepTime(delay, backoff, attempt)] + rest.sleeps, rest.verdict);
      RunFitsCons(outcome, maxAttempts, delay, backoff, attempt, rest);
    }
  }

  /** A raised call and a sleep in front of a run from the next attempt. */
  lemma RunFitsCons<T>(outcome: nat -> Call<T>, maxAttempts: int, delay: real, backoff: real,
                       attempt: nat, rest: RetryRun<T>)
    requires 1 <= attempt < maxAttempts && outcome(attempt).Raised?
    requires SleepTime(delay, backoff, attempt) >= 0.0
    requires RunFits(outcome, maxAttempts, delay, backoff, attempt + 1, rest)
    ensures RunFits(outcome, maxAttempts, delay, backoff, attempt,
                    RetryRun(1 + rest.calls, [SleepTime(delay, backoff, attempt)] + rest.sleeps, rest.verdict))
  {
    var t := SleepTime(delay, backoff, attempt);
    var r := RetryRun(1 + rest.calls, [t] + rest.sleeps, rest.verdict);
    forall j | 0 <= j < |r.sleeps|
      ensures r.sleeps[j] == SleepTime(delay, backoff, attempt + j) && r.sleeps[j] >= 0.0
    {
      if j > 0 {
        assert r.sleeps[j] == rest.sleeps[j - 1];
      }
    }
  }

  /** What the loop has done before attempt `attempt`, followed by the
      run from `attempt` on, is the whole run. */
  ghost predicate RetrySoFar<T>(outcome: nat -> Call<T>, maxAttempts: int, delay: real, backoff: real,
                                attempt: nat, calls: nat, sleeps: seq<real>)
    requires attempt >= 1
  {
    var rest := RetryFrom(outcome, maxAttempts, delay, backoff, attempt);
    RetryWrapper(outcome, maxAttempts, delay, backoff) == RetryRun(calls + rest.calls, sleeps + rest.sleeps, rest.verdict)
  }

  /** An attempt that ends the loop: the run is over after one more call. */
  lemma RetryStops<T>(outcome: nat -> Call<T>, maxAttempts: int, delay: real, backoff: real,
                      attempt: nat, calls: nat, sleeps: seq<real>, verdict: Verdict<T>)
    requires 1 <= attempt <= maxAttempts
    requires RetrySoFar(outcome, maxAttempts, delay, backoff, attempt, calls, sleeps)
    requires || (outcome(attempt).Returned? && verdict == Value(outcome(attempt).value))
             || (outcome(attempt).Escaped? && verdict == Propagated)
             || (outcome(attempt).Raised? && attempt == maxAttempts && verdict == NoneReturned)
             || (outcome(attempt).Raised? && attempt < maxAttempts && SleepTime(delay, backoff, attempt) < 0.0
                 && verdict == SleepRejected)
    ensures RetryWrapper(outcome, maxAttempts, delay, backoff) == RetryRun(calls + 1, sleeps, verdict)
  {
    assert sleeps + [] == sleeps;
  }

  /** An attempt that raised and slept: the loop goes on with one more
      call and one more sleep behind it. */
  lemma RetryGoesOn<T>(outcome: nat -> Call<T>, maxAttempts: int, delay: real, backoff: real,
                       attempt: nat, calls: nat, sleeps: seq<real>)
    requires 1 <= attempt < maxAttempts && outcome(attempt).Raised?
    requires SleepTime(delay, backoff, attempt) >= 0.0
    requires RetrySoFar(outcome, maxAttempts, delay, backoff, attempt, calls, sleeps)
    ensures RetrySoFar(outcome, maxAttempts, delay, backoff, attempt + 1, calls + 1,
                       sleeps + [SleepTime(delay, backoff, attempt)])
  {
    var t := SleepTime(delay, backoff, attempt);
    var rest := RetryFrom(outcome, maxAttempts, delay, backoff, attempt + 1);
    assert RetryFrom(outcome, maxAttempts, delay, backoff, attempt) == RetryRun(1 + rest.calls, [t] + rest.sleeps, rest.verdict);
    assert sleeps + ([t] + rest.sleeps) == (sleeps + [t]) + rest.sleeps;
  }

  /** The wrapper `retry(max_attempts, delay, backoff)` builds, applied
      once. */
  function RetryWrapper<T>(outcome: nat -> Call<T>, maxAttempts: int, delay: real, backoff: real): RetryRun<T> {
    RetryFrom(outcome, maxAttempts, delay, backoff, 1)
  }

  /** The wrapper's loop as the source writes it: `for attempt in
      range(1, max_attempts + 1)`, returning from inside the loop. */
  method Retry<T>(outcome: nat -> Call<T>, maxAttempts: int, delay: real, backoff: real)
    returns (r: RetryRun<T>)
    ensures r == RetryWrapper(outcome, maxAttempts, delay, backoff)
  {
    var calls: nat := 0;
    var sleeps: seq<real> := [];
    var attempt: nat := 1;
    while attempt <= maxAttempts
      invariant attempt >= 1 && calls == attempt - 1
      invariant RetrySoFar(outcome, maxAttempts, delay, backoff, attempt, calls, sleeps)
      decreases maxAttempts - attempt
    {
      var call := outcome(attempt);
      if call.Returned? {
        RetryStops(outcome, maxAttempts, delay, backoff, attempt, calls, sleeps, Value(call.value));
        return RetryRun(calls + 1, sleeps, Value(call.value));
      }
      if call.Escaped? {
        RetryStops(outcome, maxAttempts, delay, backoff, attempt, calls, sleeps, Propagated);
        return RetryRun(calls + 1, sleeps, Propagated);
      }
      if attempt == maxAttempts {
        RetryStops(outcome, maxAttempts, delay, backoff, attempt, calls, sleeps, NoneReturned);
        return RetryRun(calls + 1, sleeps, NoneReturned);
      }
      var t := SleepTime(delay, backoff, attempt);
      if t < 0.0 {
        RetryStops(outcome, maxAttempts, delay, backoff, attempt, calls, sleeps, SleepRejected);
        return RetryRun(calls + 1, sleeps, SleepRejected);
      }
      RetryGoesOn(outcome, maxAttempts, delay, backoff, attempt, calls, sleeps);
      calls := calls + 1;
      sleeps := sleeps + [t];
      attempt := attempt + 1;
    }
    assert RetryFrom(outcome, maxAttempts, delay, backoff, attempt) == RetryRun(0, [], NoneReturned);
    assert sleeps + [] == sleeps;
    r := RetryRun(calls, sleeps, NoneReturned);
  }


  /** The backoff schedule: the pause after the (j+1)-th failure is
      `delay * backoff ** j`. */
  function Schedule(delay: real, backoff: real, n: nat): seq<real> {
    seq(n, j requires 0 <= j => delay * Pow(backoff, j))
  }

  lemma PowNonNegative(b: real, n: nat)
    requires b >= 0.0
    ensures Pow(b, n) >= 0.0
  {
    if n > 0 {
      PowNonNegative(b, n - 1);
    }
  }

  /** Every call before the first success raised, and the first success
      is within the budget: the wrapper makes exactly `k` calls, returns
      that call's value and slept `k - 1` times on the schedule. */
  lemma RetryReturnsFirstSuccess<T>(outcome: nat -> Call<T>, maxAttempts: int, delay: real, backoff: real, k: nat)
    requires delay >= 0.0 && backoff >= 0.0
    requires 1 <= k <= maxAttempts
    requires outcome(k).Returned?
    requires forall j :: 1 <= j < k ==> outcome(j).Raised?
    ensures RetryWrapper(outcome, maxAttempts, delay, backoff)
            == RetryRun(k, Schedule(delay, backoff, k - 1), Value(outcome(k).value))
  {
    var r := RetryWrapper(outcome, maxAttempts, delay, backoff);
    RetryFromFits(outcome, maxAttempts, delay, backoff, 1);
    if r.verdict.SleepRejected? {
      PowNonNegative(backoff, r.calls - 1);
    }
    assert r.calls == k;
    forall j | 0 <= j < |r.sleeps|
      ensures r.sleeps[j] == Schedule(delay, backoff, k - 1)[j]
    {
      assert r.sleeps[j] == SleepTime(delay, backoff, 1 + j);
    }
    assert r.sleeps == Schedule(delay, backoff, k - 1);
  }

  /** Every attempt raised: exactly `max_attempts` calls, `max_attempts - 1`
      sleeps, and `None` instead of the exception. */
  lemma RetryExhausted<T>(outcome: nat -> Call<T>, maxAttempts: int, delay: real, backoff: real)
    requires delay >= 0.0 && backoff >= 0.0
    requires maxAttempts >= 1
    requires forall j :: 1 <= j <= maxAttempts ==> outcome(j).Raised?
    ensures RetryWrapper(outcome, maxAttempts, delay, backoff)
            == RetryRun(maxAttempts, Schedule(delay, backoff, maxAttempts - 1), NoneReturned)
  {
    var r := RetryWrapper(outcome, maxAttempts, delay, backoff);
    RetryFromFits(outcome, maxAttempts, delay, backoff, 1);
    if r.verdict.SleepRejected? {
      PowNonNegative(backoff, r.calls - 1);
    }
    assert r.calls == maxAttempts;
    forall j | 0 <= j < |r.sleeps|
      ensures r.sleeps[j] == Schedule(delay, backoff, maxAttempts - 1)[j]
    {
      assert r.sleeps[j] == SleepTime(delay, backoff, 1 + j);
    }
    assert r.sleeps == Schedule(delay, backoff, maxAttempts - 1);
  }

  /** An exception outside `Exception` is not retried: the wrapper makes
      exactly `k` calls, sleeps `k - 1` times on the schedule and lets the
      `k`-th call's exception through. */
  lemma EscapeIsNotRetried<T>(outcome: nat -> Call<T>, maxAttempts: int, delay: real, backoff: real, k: nat)
    requires delay >= 0.0 && backoff >= 0.0
    requires 1 <= k <= maxAttempts
    requires outcome(k).Escaped?
    requires forall j :: 1 <= j < k ==> outcome(j).Raised?
    ensures RetryWrapper(outcome, maxAttempts, delay, backoff)
            == RetryRun(k, Schedule(delay, backoff, k - 1), Propagated)
  {
    var r := RetryWrapper(outcome, maxAttempts, delay, backoff);
    RetryFromFits(outcome, maxAttempts, delay, backoff, 1);
    if r.verdict.SleepRejected? {
      PowNonNegative(backoff, r.calls - 1);
    }
    assert r.calls == k;
    forall j | 0 <= j < |r.sleeps|
      ensures r.sleeps[j] == Schedule(delay, backoff, k - 1)[j]
    {
      assert r.sleeps[j] == SleepTime(delay, backoff, 1 + j);
    }
    assert r.sleeps == Schedule(delay, backoff, k - 1);
  }

  /** With `max_attempts <= 0` the function is never called. */
  lemma RetryWithoutAttempts<T>(outcome: nat -> Call<T>, maxAttempts: int, delay: real, backoff: real)
    requires maxAttempts <= 0
    ensures RetryWrapper(outcome, maxAttempts, delay, backoff) == RetryRun(0, [], NoneReturned)
  {
  }

  /** A negative `delay` makes the first retry's sleep raise. */
  lemma NegativeDelayRaises<T>(outcome: nat -> Call<T>, maxAttempts: int, delay: real, backoff: real)
    requires delay < 0.0 && maxAttempts >= 2 && outcome(1).Raised?
    ensures RetryWrapper(outcome, maxAttempts, delay, backoff) == RetryRun(1, [], SleepRejected)
  {
  }

  /** `backoff = 1` gives a fixed interval. */
  lemma FixedInterval<T>(outcome: nat -> Call<T>, maxAttempts: int, delay: real)
    ensures forall t :: t in RetryWrapper(outcome, maxAttempts, delay, 1.0).sleeps ==> t == delay
  {
    var r := RetryWrapper(outcome, maxAttempts, delay, 1.0);
    RetryFromFits(outcome, maxAttempts, delay, 1.0, 1);
    forall n: nat
      ensures Pow(1.0, n) == 1.0
    {
      PowOne(n);
    }
  }

  lemma {:induction false} PowOne(n: nat)
    ensures Pow(1.0, n) == 1.0
  {
    if n > 0 {
      PowOne(n - 1);
    }
  }

  lemma {:induction false} PowGrows(b: real, n: nat)
    requires b > 1.0
    ensures Pow(b, n) >= 1.0 && Pow(b, n + 1) > Pow(b, n)
  {
    if n > 0 {
      PowGrows(b, n - 1);
    }
  }

  /** `backoff > 1` with a positive `delay` makes each sleep longer than
      the one before. */
  lemma GrowingBackoff<T>(outcome: nat -> Call<T>, maxAttempts: int, delay: real, backoff: real)
    requires delay > 0.0 && backoff > 1.0
    ensures var s := RetryWrapper(outcome, maxAttempts, delay, backoff).sleeps;
            forall j :: 0 <= j < |s| - 1 ==> s[j] < s[j + 1]
  {
    var s := RetryWrapper(outcome, maxAttempts, delay, backoff).sleeps;
    RetryFromFits(outcome, maxAttempts, delay, backoff, 1);
    forall j | 0 <= j < |s| - 1
      ensures s[j] < s[j + 1]
    {
      PowGrows(backoff, j);
      assert s[j] == delay * Pow(backoff, j);
      assert s[j + 1] == delay * Pow(backoff, j + 1);
    }
  }

  /** One run of the `timer` wrapper: the outcome of the single call it
      makes, and the elapsed time it logs when the call returns. */
  datatype TimedRun<T> = TimedRun(outcome: Call<T>, logged: Option<real>)

  /** `timer`: the call's result passed through unchanged; an exception of
      any kind propagates without a log line. `start` and `stop` are the
      clock readings around the call. */
  function Timer<T>(call: Call<T>, start: real, stop: real): (r: TimedRun<T>)
    ensures r.outcome == call
    ensures r.logged.Some? <==> call.Returned?
    ensures r.logged.Some? ==> r.logged.value == stop - start
  {
    if call.Returned? then TimedRun(call, Some(stop - start)) else TimedRun(call, None)
  }
}
