/**
 * The attempt count of tenacity's `@retry(stop=stop_after_attempt(n))`, the decorator the
 * scraper puts on its navigation, fetch, extraction and expansion coroutines. Without
 * `reraise=True`, exhausting the attempts raises `RetryError`, not the last exception.
 */
module Retry {
  import opened Wrappers

  /** What a decorated call ends with, and how many attempts it made. */
  datatype Retried<T> = Retried(result: Result<T>, used: nat)

  /**
   * `str(RetryError)`: the repr of the last attempt's future, which names the future's
   * address and the TYPE of the exception it raised; the exception's message is not in it.
   */
  function RetryErrorText(future: string, raised: string): string {
    "RetryError[<Future at " + future + " state=finished raised " + raised + ">]"
  }

  /**
   * Runs `attempt(0)`, `attempt(1)`, ... until one succeeds or `n` have been made;
   * `attempt(i)` is what the body does on its `i`-th try, `raised(i)` the type of the
   * exception that try raises when it fails, and `future` the address of the future
   * tenacity keeps for the last try.
   */
  function RetryUpTo<T>(attempt: nat -> Result<T>, raised: nat -> string, future: string, n: nat): (r: Retried<T>)
    requires n >= 1
    ensures 1 <= r.used <= n
    ensures r.result.Success? <==> exists i :: 0 <= i < n && attempt(i).Success?
    ensures r.result.Success? ==> r.result == attempt(r.used - 1)
    ensures forall j :: 0 <= j < r.used - 1 ==> attempt(j).Failure?
    ensures r.result.Failure? ==> r.used == n && r.result.error == RetryErrorText(future, raised(n - 1))
  {
    RetryFrom(attempt, raised, future, n, 0)
  }

  function RetryFrom<T>(attempt: nat -> Result<T>, raised: nat -> string, future: string, n: nat, i: nat): (r: Retried<T>)
    requires i < n
    requires forall j :: 0 <= j < i ==> attempt(j).Failure?
    ensures i + 1 <= r.used <= n
    ensures r.result.Success? <==> exists k :: i <= k < n && attempt(k).Success?
    ensures r.result.Success? ==> r.result == attempt(r.used - 1)
    ensures forall j :: 0 <= j < r.used - 1 ==> attempt(j).Failure?
    ensures r.result.Failure? ==> r.used == n && r.result.error == RetryErrorText(future, raised(n - 1))
    decreases n - i
  {
    match attempt(i)
    case Success(_) => Retried(attempt(i), i + 1)
    case Failure(_) =>
      if i + 1 == n then Retried(Failure(RetryErrorText(future, raised(i))), n)
      else RetryFrom(attempt, raised, future, n, i + 1)
  }
}
