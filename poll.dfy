/**
 * The retry loop of the smoke-test automation driver (code.ts, poll): call a
 * probe up to `retryCount` times until its result passes an accept function,
 * keeping the reason the last probe failed.
 */
module Poll {
  /** What one call of the probe yields: a result, or an error thrown with its stack text. */
  datatype Outcome<T> = Returned(value: T) | Threw(stack: string)

  /** How poll settles: with the accepted result, or rejected with the timeout error. */
  datatype PollResult<T> = Resolved(value: T) | TimedOut(message: string)

  /** lastError after a probe whose result did not pass the accept function. */
  const NotAccepted: string := "Did not pass accept function"

  /** The probe outcome is a result that passes `acceptFn`. */
  predicate Accepted<T>(acceptFn: T -> bool, o: Outcome<T>) {
    o.Returned? && acceptFn(o.value)
  }

  /** The lastError a failed probe leaves: the rejection text, or the thrown error's stack. */
  function ErrorOf<T>(o: Outcome<T>): string
  {
    match o
    case Returned(_) => NotAccepted
    case Threw(stack) => stack
  }

  /** The number of probes poll makes when none is accepted. */
  function Trials(retryCount: int): nat
  {
    if retryCount < 1 then 0 else retryCount
  }

  /**
   * poll: `fn(i)` is the outcome of the i-th call of the probe (from 1). The
   * result is that of the first call whose result is accepted, provided it is
   * among the first `retryCount` calls; otherwise poll times out after exactly
   * `retryCount` calls (none when `retryCount < 1`); a caller that passes no
   * retry count gets 200. `calls` is the number of calls made and
   * `lastError` the reason the last of them failed: the text poll logs on a
   * timeout; the timeout error itself carries only the message.
   */
  method Poll<T>(fn: nat -> Outcome<T>, acceptFn: T -> bool, timeoutMessage: string, retryCount: int := 200)
    returns (r: PollResult<T>, calls: nat, lastError: string)
    ensures calls <= Trials(retryCount)
    ensures forall i | 1 <= i < calls :: !Accepted(acceptFn, fn(i))
    ensures r.Resolved? ==> 1 <= calls && Accepted(acceptFn, fn(calls)) && r.value == fn(calls).value
    ensures r.TimedOut? <==> forall i | 1 <= i <= Trials(retryCount) :: !Accepted(acceptFn, fn(i))
    ensures r.TimedOut? ==> calls == Trials(retryCount) && r.message == "Timeout: " + timeoutMessage
    ensures r.TimedOut? ==> lastError == if calls == 0 then "" else ErrorOf(fn(calls))
  {
    var trial: nat := 1;
    lastError := "";
    calls := 0;
    while true
      invariant calls == trial - 1 <= Trials(retryCount)
      invariant forall i | 1 <= i < trial :: !Accepted(acceptFn, fn(i))
      invariant lastError == if trial == 1 then "" else ErrorOf(fn(trial - 1))
      decreases Trials(retryCount) - calls
    {
      if trial > retryCount {
        return TimedOut("Timeout: " + timeoutMessage), calls, lastError;
      }
      var result := fn(trial);
      calls := calls + 1;
      match result {
        case Returned(value) =>
          if acceptFn(value) {
            return Resolved(value), calls, lastError;
          }
          lastError := NotAccepted;
        case Threw(stack) =>
          lastError := stack;
      }
      trial := trial + 1;
    }
  }
}
