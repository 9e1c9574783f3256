// The retry policy of an endpoint and the two retry loops that use it.
module Retrying {
  import opened Basics

  datatype Retry = Retry(maxAttempts: nat, delayMs: nat)

  const DEFAULT_DELAY_MS: nat := 1000

  const RETRY_MESSAGE := "retry max_attempts must be 1..10 and delay_ms 0..60000"

  function ValidateRetry(retry: Retry): Option<string> {
    if !(1 <= retry.maxAttempts <= 10) || retry.delayMs > 60000
    then Some(RETRY_MESSAGE)
    else None
  }

  function Attempts(retry: Option<Retry>, default: nat): nat {
    if retry.Some? then retry.value.maxAttempts else default
  }

  function Delay(retry: Option<Retry>): nat {
    if retry.Some? then retry.value.delayMs else DEFAULT_DELAY_MS
  }

  predicate IsSuccess(status: nat) { 200 <= status < 300 }

  predicate RetryStatus(status: nat) { 500 <= status < 600 || status == 408 || status == 429 }

  // How one call ended, as far as retrying is concerned.
  datatype Verdict = Success | Transient | Permanent

  // One transfer attempt: Rust's Result<(), (&str, bool)>.
  datatype Attempt = Done | Refused(message: string, retryable: bool) {
    function Verdict(): Verdict {
      if Done? then Success else if retryable then Transient else Permanent
    }
  }

  // One callback request: an HTTP status, or no response within the timeout.
  datatype Answer = NoAnswer | Status(code: nat) {
    function Verdict(): Verdict {
      if NoAnswer? then Transient
      else if IsSuccess(code) then Success
      else if RetryStatus(code) then Transient
      else Permanent
    }
  }

  // What a response means for the loops: 2xx succeeds; no response, 5xx, 408 and 429 may be retried.
  lemma VerdictExact(answer: Answer)
    ensures answer.Verdict() == Success <==> answer.Status? && answer.code / 100 == 2
    ensures answer.Verdict() == Transient <==>
            answer.NoAnswer? || answer.code / 100 == 5 || answer.code == 408 || answer.code == 429
  {
  }

  // Which policies are refused: those with no attempt, more than ten, or more than a minute of delay.
  lemma PolicyExact(retry: Retry)
    ensures ValidateRetry(retry) == None <==>
            retry.maxAttempts in {1, 2, 3, 4, 5, 6, 7, 8, 9, 10} && retry.delayMs < 60001
    ensures ValidateRetry(retry).Some? ==>
              ValidateRetry(retry).value == "retry max_attempts must be 1..10 and delay_ms 0..60000"
  {
  }

  // The specification of both loops: call k is the last one made when call i would end as outcomes(i).
  ghost predicate LastCall(outcomes: nat -> Verdict, attempts: nat, k: nat) {
    && k < attempts
    && (forall i: nat | i < k :: outcomes(i) == Transient)
    && (outcomes(k) != Transient || k + 1 == attempts)
  }

  // The specification leaves no choice: one last call exists for every policy with an attempt.
  lemma {:induction false} LastCallExists(outcomes: nat -> Verdict, attempts: nat, from: nat)
    requires from < attempts && forall i: nat | i < from :: outcomes(i) == Transient
    ensures exists k: nat :: LastCall(outcomes, attempts, k)
    decreases attempts - from
  {
    if outcomes(from) != Transient || from + 1 == attempts {
      assert LastCall(outcomes, attempts, from);
    } else {
      LastCallExists(outcomes, attempts, from + 1);
    }
  }

  lemma LastCallUnique(outcomes: nat -> Verdict, attempts: nat, j: nat, k: nat)
    requires LastCall(outcomes, attempts, j) && LastCall(outcomes, attempts, k)
    ensures j == k
  {
  }

  function Transfers(operation: nat -> Attempt): nat -> Verdict {
    (i: nat) => operation(i).Verdict()
  }

  function Callbacks(send: nat -> Answer): nat -> Verdict {
    (i: nat) => send(i).Verdict()
  }

  // retry_transfer: the code after the loop is `unreachable!()`, and is dead for every validated policy.
  method RetryTransfer(operation: nat -> Attempt, retry: Option<Retry>)
    returns (error: Option<string>, calls: nat, sleeps: nat, waitedMs: nat)
    requires retry.Some? ==> ValidateRetry(retry.value).None?
    ensures calls >= 1
    ensures LastCall(Transfers(operation), if retry.Some? then retry.value.maxAttempts else 1, calls - 1)
    ensures error.None? <==> operation(calls - 1).Done?
    ensures error.Some? ==> error.value == operation(calls - 1).message
    ensures sleeps == calls - 1 && waitedMs == sleeps * if retry.Some? then retry.value.delayMs else 1000
  {
    var attempts := Attempts(retry, 1);
    calls, sleeps, waitedMs, error := 0, 0, 0, None;
    for attempt := 0 to attempts
      invariant calls == sleeps == attempt && waitedMs == sleeps * Delay(retry)
      invariant attempt < attempts
      invariant forall i: nat | i < attempt :: Transfers(operation)(i) == Transient
    {
      var result := operation(attempt);
      calls := calls + 1;
      match result {
        case Done =>
          return;
        case Refused(message, retryable) =>
          if !retryable || attempt + 1 == attempts {
            error := Some(message);
            return;
          }
      }
      sleeps := sleeps + 1;
      waitedMs := waitedMs + Delay(retry);
    }
    assert false;
  }

  // The retry loop at the end of notify.
  method RetryCallback(send: nat -> Answer, retry: Option<Retry>, terminal: bool)
    returns (acknowledged: bool, calls: nat, sleeps: nat, waitedMs: nat)
    requires retry.Some? ==> ValidateRetry(retry.value).None?
    ensures calls >= 1
    ensures LastCall(Callbacks(send),
                     if retry.Some? then retry.value.maxAttempts else if terminal then 3 else 1, calls - 1)
    ensures acknowledged <==> send(calls - 1).Verdict() == Success
    ensures sleeps == calls - 1 && waitedMs == sleeps * if retry.Some? then retry.value.delayMs else 1000
  {
    var attempts := Attempts(retry, if terminal then 3 else 1);
    calls, sleeps, waitedMs := 0, 0, 0;
    for attempt := 0 to attempts
      invariant calls == attempt
      invariant sleeps == if attempt == attempts then attempt - 1 else attempt
      invariant waitedMs == sleeps * Delay(retry)
      invariant forall i: nat | i < attempt :: Callbacks(send)(i) == Transient
    {
      var result := send(attempt);
      calls := calls + 1;
      if result.Status? && IsSuccess(result.code) {
        return true, calls, sleeps, waitedMs;
      }
      if result.Status? && !RetryStatus(result.code) {
        return false, calls, sleeps, waitedMs;
      }
      if attempt + 1 < attempts {
        sleeps := sleeps + 1;
        waitedMs := waitedMs + Delay(retry);
      }
    }
    acknowledged := false;
  }

  // The two loops refine one specification: endpoints whose calls end alike are called equally often,
  // so a transfer and a callback under the same policy make the same calls and reach the same verdict.
  lemma {:induction false} LoopsAgree(operation: nat -> Attempt, send: nat -> Answer, attempts: nat, j: nat, k: nat)
    requires LastCall(Transfers(operation), attempts, j)
    requires LastCall(Callbacks(send), attempts, k)
    requires forall i: nat | i < attempts :: Transfers(operation)(i) == Callbacks(send)(i)
    ensures j == k && (operation(j).Done? <==> send(k).Verdict() == Success)
  {
    assert LastCall(Callbacks(send), attempts, j);
    LastCallUnique(Callbacks(send), attempts, j, k);
  }

  // After validation a policy configures at most nine waits of one minute.
  lemma DelayBounded(outcomes: nat -> Verdict, retry: Option<Retry>, default: nat, k: nat)
    requires retry.Some? ==> ValidateRetry(retry.value).None?
    requires 1 <= default <= 3
    requires LastCall(outcomes, Attempts(retry, default), k)
    ensures k <= 9 && k * Delay(retry) <= 540000
  {
    assert k * Delay(retry) <= 9 * Delay(retry);
  }
}
