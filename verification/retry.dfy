/** The retry helper: an operation is attempted until it succeeds or the
    attempt budget is spent, with a caller-supplied backoff before every
    attempt but the first. Sleeping is abstracted away: the backoff is a state
    transformer, and the operation's outcome on its k-th call is given. */
module Retry {

  /** The state after `n` backoff calls. */
  function Iterate<S>(backoff: S -> S, state: S, n: nat): S
    decreases n
  {
    if n == 0 then state else backoff(Iterate(backoff, state, n - 1))
  }

  /** The calls 1 to `n` all fail. */
  predicate FailsThrough(succeedsOn: nat -> bool, n: nat)
  {
    forall k :: 1 <= k <= n ==> !succeedsOn(k)
  }

  /** The budget as a number of attempts: a budget below one allows none. */
  function Budget(maxAttemptCount: int): nat
  {
    if maxAttemptCount > 0 then maxAttemptCount else 0
  }

  /** `RetryHelper.Retry`. `succeedsOn(k)` says whether the k-th call succeeds;
      `failures` counts the failures collected for the error surfaced when the
      budget runs out. */
  method Retry<S>(succeedsOn: nat -> bool, backoff: S -> S, state0: S, maxAttemptCount: int)
    returns (calls: nat, backoffs: nat, state: S, succeeded: bool, failures: nat)
    ensures succeeded ==> 1 <= calls <= Budget(maxAttemptCount) && succeedsOn(calls) && FailsThrough(succeedsOn, calls - 1)
    ensures !succeeded ==> calls == Budget(maxAttemptCount) && FailsThrough(succeedsOn, calls)
    ensures succeeded <==> exists k :: 1 <= k <= Budget(maxAttemptCount) && succeedsOn(k)
    ensures backoffs == if calls == 0 then 0 else calls - 1
    ensures state == Iterate(backoff, state0, backoffs)
    ensures failures == if succeeded then calls - 1 else calls
  {
    calls, backoffs, state, succeeded, failures := 0, 0, state0, false, 0;
    var attempted := 0;
    while attempted < maxAttemptCount
      invariant 0 <= attempted <= Budget(maxAttemptCount)
      invariant calls == attempted && failures == attempted
      invariant backoffs == if attempted == 0 then 0 else attempted - 1
      invariant state == Iterate(backoff, state0, backoffs)
      invariant FailsThrough(succeedsOn, attempted)
      decreases maxAttemptCount - attempted
    {
      if attempted > 0 {
        state := backoff(state);
        backoffs := backoffs + 1;
      }
      calls := calls + 1;
      if succeedsOn(calls) {
        succeeded := true;
        return;
      }
      failures := failures + 1;
      attempted := attempted + 1;
    }
  }

  /** An always-failing action with a budget of 7 is called 7 times and its failure surfaces. */
  method AlwaysFailingAction() returns (calls: nat, succeeded: bool)
    ensures calls == 7 && !succeeded
  {
    var backoffs, state, failures;
    calls, backoffs, state, succeeded, failures := Retry((k: nat) => false, (s: int) => s, 0, 7);
  }

  /** A doubling backoff starting at 6 with a budget of 3 runs twice, ending at 24. */
  method ExponentialBackoff() returns (calls: nat, backoffs: nat, sleep: int)
    ensures calls == 3 && backoffs == 2 && sleep == 24
  {
    var succeeded, failures;
    calls, backoffs, sleep, succeeded, failures := Retry((k: nat) => false, (s: int) => s * 2, 6, 3);
  }

  /** An action failing on its first five calls, with a budget of 20, is called 6 times and succeeds. */
  method SucceedsOnSixthCall() returns (calls: nat, succeeded: bool)
    ensures calls == 6 && succeeded
  {
    var sixthCallSucceeds := (k: nat) => k >= 6;
    var backoffs, state, failures;
    calls, backoffs, state, succeeded, failures := Retry(sixthCallSucceeds, (s: int) => s, 0, 20);
    assert sixthCallSucceeds(6);
  }
}
