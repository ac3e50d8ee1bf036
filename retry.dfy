/**
 * The bounded retry of `LoadToMemoryStream` and `GetURL`: up to three attempts, each a request
 * whose response must also yield a valid `URL` from its resolved address; a sleep after every
 * failed attempt, the third included.
 */
module Retry {
  import opened Wrappers
  import opened UrlValue
  import opened Transport

  /** `maxattempt`. */
  const MaxAttempts: nat := 3

  /**
   * An attempt succeeds when `GetResponse` answers and the `URL` constructor accepts the address
   * the request resolved to; both happen inside the `try`, so either failing is retried.
   */
  predicate Usable(o: Outcome) {
    o.Response? && IsHttpAddress(o.head.resolved)
  }

  /** The first attempt from `k` on, among the first three, that succeeds. */
  function FirstUsable(outs: seq<Outcome>, k: nat): (r: Option<nat>)
    requires k <= MaxAttempts
    decreases MaxAttempts - k
    ensures r.Some? ==> k <= r.value < MaxAttempts && Usable(OutcomeAt(outs, r.value))
    ensures r.Some? ==> forall m: nat :: k <= m < r.value ==> !Usable(OutcomeAt(outs, m))
    ensures r.None? <==> forall m: nat :: k <= m < MaxAttempts ==> !Usable(OutcomeAt(outs, m))
  {
    if k == MaxAttempts then None
    else if Usable(OutcomeAt(outs, k)) then Some(k)
    else FirstUsable(outs, k + 1)
  }

  /** How many requests the retry loop issues. */
  function Attempts(outs: seq<Outcome>): (n: nat)
    ensures 1 <= n <= MaxAttempts
  {
    match FirstUsable(outs, 0)
    case Some(j) => j + 1
    case None => MaxAttempts
  }

  /** `n` failed attempts: each one a request followed by a sleep. */
  function FailureLog(address: string, n: nat): seq<Event> {
    if n == 0 then [] else FailureLog(address, n - 1) + [Requested(address), Slept]
  }

  /** Everything the retry loop does on the transport, ending with the successful request if there is one. */
  function RetryLog(address: string, outs: seq<Outcome>): seq<Event> {
    match FirstUsable(outs, 0)
    case Some(j) => FailureLog(address, j) + [Requested(address)]
    case None => FailureLog(address, MaxAttempts)
  }

  /** Whether any of the first `n` attempts obtained a response, usable or not. */
  function AnyResponse(outs: seq<Outcome>, n: nat): (r: bool)
    ensures r <==> exists k: nat :: k < n && OutcomeAt(outs, k).Response?
  {
    if n == 0 then false
    else OutcomeAt(outs, n - 1).Response? || AnyResponse(outs, n - 1)
  }

  /** Failed attempts alternate request and sleep, and always ask for the same address. */
  lemma {:induction false} FailureLogShape(address: string, n: nat)
    ensures |FailureLog(address, n)| == 2 * n
    ensures forall k: nat :: k < n ==>
      FailureLog(address, n)[2 * k] == Requested(address) && FailureLog(address, n)[2 * k + 1] == Slept
  {
    if n > 0 {
      FailureLogShape(address, n - 1);
      var prev := FailureLog(address, n - 1);
      assert FailureLog(address, n) == prev + [Requested(address), Slept];
    }
  }

  /** `n` failed attempts make `n` requests and `n` sleeps and nothing else. */
  lemma {:induction false} FailureLogCounts(address: string, n: nat)
    ensures multiset(FailureLog(address, n))[Requested(address)] == n
    ensures multiset(FailureLog(address, n))[Slept] == n
    ensures |FailureLog(address, n)| == 2 * n
  {
    if n > 0 {
      FailureLogCounts(address, n - 1);
      var prev := FailureLog(address, n - 1);
      assert multiset(prev + [Requested(address), Slept]) == multiset(prev) + multiset{Requested(address), Slept};
    }
  }

  /** Failed attempts log nothing but requests to `address` and sleeps. */
  lemma {:induction false} FailureLogHoldsRequestsAndSleeps(address: string, n: nat)
    ensures forall e :: e in FailureLog(address, n) ==> e == Requested(address) || e == Slept
  {
    if n > 0 {
      FailureLogHoldsRequestsAndSleeps(address, n - 1);
    }
  }

  /**
   * At most three requests, all to the instance's own address; exactly one sleep per failed
   * attempt; three requests and three sleeps when every attempt fails.
   */
  lemma RetryIsBounded(address: string, outs: seq<Outcome>)
    ensures multiset(RetryLog(address, outs))[Requested(address)] == Attempts(outs) <= MaxAttempts
    ensures |RetryLog(address, outs)| == multiset(RetryLog(address, outs))[Requested(address)] + multiset(RetryLog(address, outs))[Slept]
    ensures FirstUsable(outs, 0).Some? ==> multiset(RetryLog(address, outs))[Slept] == Attempts(outs) - 1
    ensures FirstUsable(outs, 0).None? ==> multiset(RetryLog(address, outs))[Slept] == MaxAttempts
    ensures forall e :: e in RetryLog(address, outs) ==> e == Requested(address) || e == Slept
  {
    match FirstUsable(outs, 0)
    case Some(j) =>
      FailureLogHoldsRequestsAndSleeps(address, j);
      FailureLogCounts(address, j);
      var prev := FailureLog(address, j);
      assert multiset(prev + [Requested(address)]) == multiset(prev) + multiset{Requested(address)};
    case None =>
      FailureLogHoldsRequestsAndSleeps(address, MaxAttempts);
      FailureLogCounts(address, MaxAttempts);
  }

  /** A successful first attempt stops the loop: one request and no sleep. */
  lemma FirstSuccessStopsRetrying(address: string, outs: seq<Outcome>)
    requires Usable(OutcomeAt(outs, 0))
    ensures Attempts(outs) == 1
    ensures RetryLog(address, outs) == [Requested(address)]
  {
  }

  /** Three failures: request, sleep, request, sleep, request, sleep. */
  lemma ThreeFailuresThreeSleeps(address: string, outs: seq<Outcome>)
    requires forall m: nat :: m < MaxAttempts ==> !Usable(OutcomeAt(outs, m))
    ensures RetryLog(address, outs) ==
      [Requested(address), Slept, Requested(address), Slept, Requested(address), Slept]
  {
    assert FailureLog(address, 1) == [Requested(address), Slept];
    assert FailureLog(address, 2) == [Requested(address), Slept, Requested(address), Slept];
  }

  /** A response whose resolved address is not http(s) is a failed attempt, so the next outcome is tried. */
  lemma InvalidResolvedAddressIsRetried(address: string)
    ensures var outs := [Response(ResponseHead("ftp://mirror", 0), []), Response(ResponseHead("http://mirror", 0), [])];
      && FirstUsable(outs, 0) == Some(1)
      && RetryLog(address, outs) == [Requested(address), Slept, Requested(address)]
  {
    var outs := [Response(ResponseHead("ftp://mirror", 0), []), Response(ResponseHead("http://mirror", 0), [])];
    assert "ftp://mirror"[..|HttpPrefix|][0] != HttpPrefix[0];
    assert "ftp://mirror"[..|HttpsPrefix|][0] != HttpsPrefix[0];
    assert "http://mirror"[..|HttpPrefix|] == HttpPrefix;
    assert !Usable(OutcomeAt(outs, 0)) && Usable(OutcomeAt(outs, 1));
    assert FailureLog(address, 1) == [Requested(address), Slept];
  }
}
