/**
  The retry loop around a watch connection and the exit of a watch thread (src/kubernetes.cc,
  `WatchMaster` and the `Watch*` functions).
 */
module WatchRetry {
  import HealthChecker

  // ---------------------------------------------------------------- backoff

  function Power(base: real, n: nat): real {
    if n == 0 then 1.0 else base * Power(base, n - 1)
  }

  /** Seconds slept after the n-th failure in a row: `fmin(pow(1.5, failures), 30)`. */
  function Backoff(n: nat): real {
    if Power(1.5, n) < 30.0 then Power(1.5, n) else 30.0
  }

  lemma {:induction false} PowerGrows(n: nat)
    ensures Power(1.5, n) >= 1.0
    ensures n >= 9 ==> Power(1.5, n) > 30.0
  {
    if n == 9 {
      assert Power(1.5, 4) == 5.0625;
      assert Power(1.5, 8) == 1.5 * (1.5 * (1.5 * (1.5 * Power(1.5, 4))));
    } else if n > 0 {
      PowerGrows(n - 1);
    }
  }

  lemma {:induction false} PowerIncreases(m: nat, n: nat)
    requires m <= n
    ensures Power(1.5, m) <= Power(1.5, n)
  {
    if m < n {
      PowerIncreases(m, n - 1);
      PowerGrows(n - 1);
    }
  }

  /** Within a streak the sleeps never get shorter, and never exceed 30 seconds. */
  lemma BackoffNondecreasing(m: nat, n: nat)
    requires m <= n
    ensures 1.0 <= Backoff(m) <= Backoff(n) <= 30.0
  {
    PowerIncreases(m, n);
    PowerGrows(m);
  }

  /** Seconds slept over the first `n` failures of a streak. */
  function StreakSleep(n: nat): real {
    if n == 0 then 0.0 else StreakSleep(n - 1) + Backoff(n)
  }

  /** A geometric sum up to the cap, then 30 seconds a time. */
  lemma {:induction false} StreakSleepClosedForm(n: nat)
    ensures n <= 8 ==> StreakSleep(n) == 3.0 * (Power(1.5, n) - 1.0)
    ensures n >= 8 ==> StreakSleep(n) == 3.0 * (Power(1.5, 8) - 1.0) + 30.0 * (n - 8) as real
  {
    if n > 0 {
      StreakSleepClosedForm(n - 1);
      if n <= 8 {
        PowerIncreases(n, 8);
        assert Power(1.5, 4) == 5.0625;
        assert Power(1.5, 8) == 1.5 * (1.5 * (1.5 * (1.5 * Power(1.5, 4))));
      } else {
        PowerGrows(n);
      }
    }
  }

  // ---------------------------------------------------------------- the loop

  /** How an attempt to watch ends: in a clean close, a connection error, or a JSON exception. */
  datatype Attempt = Closed | Refused | Malformed

  /** How many of the last of the first `n` attempts were refused in a row. */
  function Streak(attempts: seq<Attempt>, n: nat): nat
    requires n <= |attempts|
  {
    if n == 0 || !attempts[n - 1].Refused? then 0 else 1 + Streak(attempts, n - 1)
  }

  /** The sleeps that the first `n` attempts cause when the loop goes on after each. */
  function Sleeps(attempts: seq<Attempt>, n: nat): seq<real>
    requires n <= |attempts|
  {
    if n == 0 then []
    else Sleeps(attempts, n - 1) + (if attempts[n - 1].Refused? then [Backoff(Streak(attempts, n))] else [])
  }

  /** How many of the first `n` attempts were refused. */
  ghost function Refusals(attempts: seq<Attempt>, n: nat): nat
    requires n <= |attempts|
  {
    |set k | 0 <= k < n && attempts[k].Refused?|
  }

  lemma RefusalsStep(attempts: seq<Attempt>, n: nat)
    requires 0 < n <= |attempts|
    ensures Refusals(attempts, n) == Refusals(attempts, n - 1) + (if attempts[n - 1].Refused? then 1 else 0)
  {
    var before := set k | 0 <= k < n - 1 && attempts[k].Refused?;
    var now := set k | 0 <= k < n && attempts[k].Refused?;
    assert now == before + (if attempts[n - 1].Refused? then {n - 1} else {});
  }

  /** The loop sleeps once per refused attempt and not otherwise. */
  lemma {:induction false} SleepsPerRefusal(attempts: seq<Attempt>, n: nat)
    requires n <= |attempts|
    ensures |Sleeps(attempts, n)| == Refusals(attempts, n)
  {
    if n > 0 {
      SleepsPerRefusal(attempts, n - 1);
      RefusalsStep(attempts, n);
    }
  }

  /** The k-th attempt of a run of refusals is followed by a sleep of 1.5^k seconds, but 30 at most. */
  lemma {:induction false} SleepAfterRefusal(attempts: seq<Attempt>, n: nat, k: nat)
    requires k < n <= |attempts| && attempts[k].Refused?
    ensures Refusals(attempts, k) < |Sleeps(attempts, n)|
    ensures var seconds := Power(1.5, Streak(attempts, k + 1));
      Sleeps(attempts, n)[Refusals(attempts, k)] == if seconds < 30.0 then seconds else 30.0
    decreases n
  {
    SleepsPerRefusal(attempts, n - 1);
    if k < n - 1 { SleepAfterRefusal(attempts, n - 1, k); }
  }

  datatype Outcome = Returned | Threw(json: bool) | StillWatching

  /** The n-th attempt makes a streak too long, or throws past the loop's handler. */
  ghost predicate Fatal(attempts: seq<Attempt>, n: nat, maxFailures: int) {
    && 0 < n <= |attempts|
    && (attempts[n - 1].Malformed? || (attempts[n - 1].Refused? && Streak(attempts, n) > maxFailures))
  }

  ghost predicate FirstFatal(attempts: seq<Attempt>, n: nat, maxFailures: int) {
    Fatal(attempts, n, maxFailures) && Tolerated(attempts, n - 1, maxFailures)
  }

  /** None of the first `n` attempts ends the loop. */
  ghost predicate Tolerated(attempts: seq<Attempt>, n: nat, maxFailures: int) {
    n <= |attempts| && forall k: nat :: k <= n ==> !Fatal(attempts, k, maxFailures)
  }

  /**
    `attempts` is how the connections will end, as far as they are given: the loop throws at the
    first streak longer than `maxFailures` or the first JSON exception, returns only after `retries`
    attempts when that is positive, and otherwise goes on for ever.
   */
  method WatchMaster(retries: int, maxFailures: int, attempts: seq<Attempt>)
    returns (outcome: Outcome, made: nat, sleeps: seq<real>)
    ensures made <= |attempts| && (retries > 0 ==> made <= retries)
    ensures outcome.Threw? <==> FirstFatal(attempts, made, maxFailures)
    ensures outcome.Threw? ==> outcome.json == attempts[made - 1].Malformed?
    ensures !outcome.Threw? ==> Tolerated(attempts, made, maxFailures)
    ensures outcome.Returned? <==> retries > 0 && made == retries && Tolerated(attempts, made, maxFailures)
    ensures outcome.StillWatching? ==> made == |attempts|
    ensures sleeps == Sleeps(attempts, if outcome.Threw? then made - 1 else made)
  {
    var failures := 0;
    var i := 0;
    sleeps := [];
    while retries <= 0 || i < retries
      invariant 0 <= i <= |attempts| && (retries > 0 ==> i <= retries)
      invariant failures == Streak(attempts, i)
      invariant Tolerated(attempts, i, maxFailures)
      invariant sleeps == Sleeps(attempts, i)
      decreases |attempts| - i
    {
      if i == |attempts| {
        return StillWatching, i, sleeps;
      }
      match attempts[i] {
        case Closed =>
          failures := 0;
        case Refused =>
          failures := failures + 1;
          if failures > maxFailures {
            assert Fatal(attempts, i + 1, maxFailures);
            return Threw(false), i + 1, sleeps;
          }
          sleeps := sleeps + [Backoff(failures)];
        case Malformed =>
          assert Fatal(attempts, i + 1, maxFailures);
          return Threw(true), i + 1, sleeps;
      }
      i := i + 1;
    }
    return Returned, i, sleeps;
  }

  /** With a sensible limit the streak that ends the loop is of exactly one failure too many. */
  lemma {:induction false} ThrowsAtOneTooMany(attempts: seq<Attempt>, n: nat, maxFailures: nat)
    requires FirstFatal(attempts, n, maxFailures) && !attempts[n - 1].Malformed?
    ensures Streak(attempts, n) == maxFailures + 1
    ensures forall k :: n - (maxFailures + 1) <= k < n ==> 0 <= k && attempts[k].Refused?
  {
    assert !Fatal(attempts, n - 1, maxFailures);
    StreakIsRun(attempts, n);
  }

  lemma {:induction false} StreakIsRun(attempts: seq<Attempt>, n: nat)
    requires n <= |attempts|
    ensures Streak(attempts, n) <= n
    ensures forall k :: n - Streak(attempts, n) <= k < n ==> attempts[k].Refused?
    ensures Streak(attempts, n) < n ==> !attempts[n - Streak(attempts, n) - 1].Refused?
  {
    if n > 0 && attempts[n - 1].Refused? {
      StreakIsRun(attempts, n - 1);
    }
  }

  function Total(sleeps: seq<real>): real {
    if sleeps == [] then 0.0 else Total(sleeps[..|sleeps| - 1]) + sleeps[|sleeps| - 1]
  }

  /** A streak in progress has slept the closed form, on top of everything before it. */
  lemma {:induction false} StreakTotals(attempts: seq<Attempt>, n: nat)
    requires n <= |attempts|
    ensures Streak(attempts, n) <= n
    ensures Total(Sleeps(attempts, n)) ==
      Total(Sleeps(attempts, n - Streak(attempts, n))) + StreakSleep(Streak(attempts, n))
  {
    if n > 0 && attempts[n - 1].Refused? {
      StreakTotals(attempts, n - 1);
      var before := Sleeps(attempts, n - 1);
      assert (before + [Backoff(Streak(attempts, n))])[..|before|] == before;
    }
  }

  // ---------------------------------------------------------------- the end of a watch thread

  /** A watch thread: however its loop ends, the health checker hears of it. */
  method WatchThread(retries: int, maxFailures: int, attempts: seq<Attempt>,
                     health: HealthChecker.HealthChecker?, component: string)
    returns (ended: bool)
    modifies health
    ensures ended <==> exists n: nat :: Ends(attempts, n, retries, maxFailures)
    ensures health != null ==>
      health.unhealthyComponents == old(health.unhealthyComponents) + if ended then {component} else {}
  {
    var outcome, made, _ := WatchMaster(retries, maxFailures, attempts);
    ended := !outcome.StillWatching?;
    if ended {
      assert Ends(attempts, made, retries, maxFailures);
      if health != null {
        health.SetUnhealthy(component);
      }
    } else {
      forall n: nat ensures !Ends(attempts, n, retries, maxFailures) {
        NotEnded(attempts, n, retries, maxFailures);
      }
    }
  }

  /** The loop is over after exactly `n` attempts. */
  ghost predicate Ends(attempts: seq<Attempt>, n: nat, retries: int, maxFailures: int) {
    && n <= |attempts| && (retries > 0 ==> n <= retries)
    && (|| FirstFatal(attempts, n, maxFailures)
        || (retries > 0 && n == retries && Tolerated(attempts, n, maxFailures)))
  }

  lemma NotEnded(attempts: seq<Attempt>, n: nat, retries: int, maxFailures: int)
    requires Tolerated(attempts, |attempts|, maxFailures)
    requires !(retries > 0 && |attempts| == retries) && (retries > 0 ==> |attempts| <= retries)
    ensures !Ends(attempts, n, retries, maxFailures)
  {
  }
}
