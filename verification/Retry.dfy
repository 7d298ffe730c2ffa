/** Retrying with a growing backoff, under a cap on the total time waited. */
module Retry {

  datatype Config = Config(maxRetries: int, initialBackoff: int, maxBackoff: int, capTotalWaitTime: int)

  /** What the operation reports at one attempt. */
  datatype Outcome = Succeeds | Retryable | Fatal

  /** Nil is returned on success and, just the same, when the retries or the waiting time run out. */
  datatype Result = Nil | OperationError | InvalidConfig | Panics

  function Min(a: int, b: int): int { if a < b then a else b }

  function Sum(sleeps: seq<int>): int {
    if sleeps == [] then 0 else Sum(sleeps[..|sleeps| - 1]) + sleeps[|sleeps| - 1]
  }

  /** Below a tenth of the backoff, as the random draw promises. */
  ghost predicate Jitter(draw: (nat, int) -> int) {
    forall i, bound :: bound > 0 ==> 0 <= draw(i, bound) < bound
  }

  /** Sleeps are at least the smaller backoff, except for one that uses up the cap. */
  lemma {:induction false} SleepsFill(sleeps: seq<int>, n: nat, least: int)
    requires n <= |sleeps| && forall k :: 0 <= k < n ==> sleeps[k] >= least
    ensures n * least <= Sum(sleeps[..n])
  {
    if n > 0 {
      SleepsFill(sleeps, n - 1, least);
      assert sleeps[..n][..n - 1] == sleeps[..n - 1];
    }
  }

  lemma SumSnoc(sleeps: seq<int>, x: int)
    ensures Sum(sleeps + [x]) == Sum(sleeps) + x
  {
    assert (sleeps + [x])[..|sleeps|] == sleeps;
  }

  lemma ProductGrows(a: int, b: int, least: int)
    requires a <= b && least >= 0
    ensures a * least <= b * least
  {
  }

  lemma QuotientBound(n: nat, least: int, cap: int)
    requires least > 0
    ensures n * least <= cap ==> n <= cap / least
  {
    var q := cap / least;
    assert cap < (q + 1) * least;
    if n > q {
      ProductGrows(q + 1, n, least);
    }
  }

  /** Every sleep but a last, shortened one is at least the smaller backoff. */
  ghost predicate Filling(config: Config, sleeps: seq<int>, backoff: int) {
    var least := Min(config.initialBackoff, config.maxBackoff);
    || ((forall k :: 0 <= k < |sleeps| ==> sleeps[k] >= least) && backoff >= least)
    || (|sleeps| > 0 && (forall k :: 0 <= k < |sleeps| - 1 ==> sleeps[k] >= least) &&
        Sum(sleeps) == config.capTotalWaitTime)
  }

  /** The number of sleeps is bounded however many retries are allowed. */
  lemma FillingBounds(config: Config, sleeps: seq<int>, backoff: int)
    requires Filling(config, sleeps, backoff) && Sum(sleeps) <= config.capTotalWaitTime
    requires config.initialBackoff > 0 && config.maxBackoff > 0
    requires forall k :: 0 <= k < |sleeps| ==> sleeps[k] > 0
    ensures |sleeps| <= config.capTotalWaitTime / Min(config.initialBackoff, config.maxBackoff) + 1
  {
    var least := Min(config.initialBackoff, config.maxBackoff);
    var n := if |sleeps| == 0 then 0 else |sleeps| - 1;
    SleepsFill(sleeps, n, least);
    assert |sleeps| > 0 ==> Sum(sleeps) == Sum(sleeps[..n]) + sleeps[n];
    QuotientBound(n, least, config.capTotalWaitTime);
  }

  /** The next sleep: the backoff with its jitter, under both limits. */
  function NextSleep(config: Config, backoff: int, jitter: int, waited: int): int {
    var b := Min(backoff + jitter, config.maxBackoff);
    if waited + b > config.capTotalWaitTime then config.capTotalWaitTime - waited else b
  }

  /** How a call ends: its result, how often the operation was attempted, and the sleeps in between. */
  datatype End = End(result: Result, attempts: nat, sleeps: seq<int>)

  /** The backoff that the next draw scales. */
  function LastBackoff(config: Config, sleeps: seq<int>): int {
    if sleeps == [] then config.initialBackoff else sleeps[|sleeps| - 1]
  }

  predicate MayRetry(config: Config, attempts: nat) { attempts < config.maxRetries || config.maxRetries <= 0 }

  /** The loop from the point where these sleeps are over. */
  function Rest(config: Config, outcome: nat -> Outcome, draw: (nat, int) -> int, sleeps: seq<int>): End
    decreases config.capTotalWaitTime - Sum(sleeps)
  {
    var n, backoff := |sleeps|, LastBackoff(config, sleeps);
    if !MayRetry(config, n) then End(Nil, n, sleeps)
    else if outcome(n) != Retryable || backoff < 10 then End(LastResult(outcome(n), backoff), n + 1, sleeps)
    else
      var next := NextSleep(config, backoff, draw(n, backoff / 10), Sum(sleeps));
      if next <= 0 then End(Nil, n + 1, sleeps)
      else
        SumSnoc(sleeps, next);
        Rest(config, outcome, draw, sleeps + [next])
  }

  predicate Invalid(config: Config) { config.capTotalWaitTime <= 0 && config.maxRetries <= 0 }

  function Retry(config: Config, outcome: nat -> Outcome, draw: (nat, int) -> int): End {
    if Invalid(config) then End(InvalidConfig, 0, []) else Rest(config, outcome, draw, [])
  }

  /** What an attempt leads to when it is the last. */
  function LastResult(last: Outcome, backoff: int): Result {
    match last
    case Succeeds => Nil
    case Fatal => OperationError
    case Retryable => if backoff < 10 then Panics else Nil
  }

  lemma FillingStep(config: Config, sleeps: seq<int>, backoff: int, jitter: int)
    requires Filling(config, sleeps, backoff) && backoff >= 10 && jitter >= 0
    requires NextSleep(config, backoff, jitter, Sum(sleeps)) > 0
    ensures var next := NextSleep(config, backoff, jitter, Sum(sleeps));
      && Filling(config, sleeps + [next], next)
      && Sum(sleeps + [next]) == Sum(sleeps) + next <= config.capTotalWaitTime && next <= config.maxBackoff
  {
    SumSnoc(sleeps, NextSleep(config, backoff, jitter, Sum(sleeps)));
  }

  /** The state between two attempts. */
  ghost predicate Waiting(config: Config, outcome: nat -> Outcome, sleeps: seq<int>, backoff: int) {
    && (forall i :: 0 <= i < |sleeps| ==> outcome(i) == Retryable)
    && (forall k :: 0 <= k < |sleeps| ==> 0 < sleeps[k] <= config.maxBackoff)
    && (sleeps != [] ==> Sum(sleeps) <= config.capTotalWaitTime)
    && backoff == LastBackoff(config, sleeps)
    && Filling(config, sleeps, backoff)
  }

  lemma WaitingStep(config: Config, outcome: nat -> Outcome, sleeps: seq<int>, backoff: int, jitter: int)
    requires Waiting(config, outcome, sleeps, backoff) && outcome(|sleeps|) == Retryable && backoff >= 10 && jitter >= 0
    requires NextSleep(config, backoff, jitter, Sum(sleeps)) > 0
    ensures var next := NextSleep(config, backoff, jitter, Sum(sleeps));
      Waiting(config, outcome, sleeps + [next], next) && Sum(sleeps + [next]) == Sum(sleeps) + next
  {
    FillingStep(config, sleeps, backoff, jitter);
  }

  /** The bound on attempts that holds even when the number of retries is not limited. */
  ghost predicate WithinBound(config: Config, attempts: nat) {
    config.initialBackoff > 0 && config.maxBackoff > 0 && config.capTotalWaitTime > 0 ==>
      attempts <= config.capTotalWaitTime / Min(config.initialBackoff, config.maxBackoff) + 2
  }

  /** Bounds on the waiting and on the attempts; without a cap on the waiting nothing is ever retried. */
  ghost predicate Bounded(config: Config, attempts: nat, sleeps: seq<int>) {
    && (forall k :: 0 <= k < |sleeps| ==> 0 < sleeps[k] <= config.maxBackoff)
    && (sleeps != [] ==> Sum(sleeps) <= config.capTotalWaitTime)
    && |sleeps| <= attempts <= |sleeps| + 1
    && WithinBound(config, attempts)
    && (config.capTotalWaitTime <= 0 ==> attempts <= 1)
  }

  lemma WaitingBound(config: Config, outcome: nat -> Outcome, sleeps: seq<int>, backoff: int)
    requires Waiting(config, outcome, sleeps, backoff)
    ensures Bounded(config, |sleeps|, sleeps) && Bounded(config, |sleeps| + 1, sleeps)
  {
    SleepsFill(sleeps, |sleeps|, 1);
    assert sleeps[..|sleeps|] == sleeps;
    if config.initialBackoff > 0 && config.maxBackoff > 0 && config.capTotalWaitTime > 0 {
      FillingBounds(config, sleeps, backoff);
    }
  }

  /** How a run that made an attempt ended. */
  ghost predicate Explained(config: Config, outcome: nat -> Outcome, result: Result, attempts: nat, sleeps: seq<int>)
    requires attempts > 0
  {
    var last := outcome(attempts - 1);
    // Every attempt but the last failed and could be retried; the last explains the result.
    && (forall i :: 0 <= i < attempts - 1 ==> outcome(i) == Retryable)
    && result != InvalidConfig && (result == OperationError <==> last == Fatal)
    && (last == Succeeds ==> result == Nil)
    // Nil without success: the retries or the waiting time were used up.
    && (result == Nil && last == Retryable ==>
          attempts == config.maxRetries || Sum(sleeps) >= config.capTotalWaitTime || config.maxBackoff <= 0)
    // The draw panics exactly when the backoff it scales has fallen below ten.
    && (result == Panics <==>
          attempts == |sleeps| + 1 && last == Retryable && LastBackoff(config, sleeps) < 10)
  }

  lemma Ends(config: Config, outcome: nat -> Outcome, sleeps: seq<int>, backoff: int, jitter: int)
    requires Waiting(config, outcome, sleeps, backoff) && jitter >= 0
    requires outcome(|sleeps|) == Retryable && backoff >= 10 ==> NextSleep(config, backoff, jitter, Sum(sleeps)) <= 0
    ensures Explained(config, outcome, LastResult(outcome(|sleeps|), backoff), |sleeps| + 1, sleeps)
  {
  }

  lemma RetriesUsedUp(config: Config, outcome: nat -> Outcome, sleeps: seq<int>, backoff: int)
    requires Waiting(config, outcome, sleeps, backoff) && |sleeps| == config.maxRetries > 0
    ensures Explained(config, outcome, Nil, |sleeps|, sleeps)
  {
  }

  lemma RestStops(config: Config, outcome: nat -> Outcome, draw: (nat, int) -> int, sleeps: seq<int>, jitter: int)
    requires Waiting(config, outcome, sleeps, LastBackoff(config, sleeps)) && MayRetry(config, |sleeps|) && jitter >= 0
    requires outcome(|sleeps|) == Retryable && LastBackoff(config, sleeps) >= 10 ==>
      NextSleep(config, LastBackoff(config, sleeps), jitter, Sum(sleeps)) <= 0
    ensures var backoff := LastBackoff(config, sleeps);
      Explained(config, outcome, LastResult(outcome(|sleeps|), backoff), |sleeps| + 1, sleeps)
      && Bounded(config, |sleeps| + 1, sleeps)
  {
    Ends(config, outcome, sleeps, LastBackoff(config, sleeps), jitter);
    WaitingBound(config, outcome, sleeps, LastBackoff(config, sleeps));
  }

  /** Whatever the operation and the draws do, the end is explained and within the bounds. */
  lemma {:induction false} RestEnds(config: Config, outcome: nat -> Outcome, draw: (nat, int) -> int, sleeps: seq<int>)
    requires Jitter(draw) && Waiting(config, outcome, sleeps, LastBackoff(config, sleeps))
    requires MayRetry(config, |sleeps|) || |sleeps| == config.maxRetries
    ensures var e := Rest(config, outcome, draw, sleeps);
      && e.attempts > 0 && Explained(config, outcome, e.result, e.attempts, e.sleeps)
      && Bounded(config, e.attempts, e.sleeps) && (config.maxRetries > 0 ==> e.attempts <= config.maxRetries)
    decreases config.capTotalWaitTime - Sum(sleeps)
  {
    var n, backoff := |sleeps|, LastBackoff(config, sleeps);
    if !MayRetry(config, n) {
      RetriesUsedUp(config, outcome, sleeps, backoff);
      WaitingBound(config, outcome, sleeps, backoff);
    } else if outcome(n) != Retryable || backoff < 10 {
      RestStops(config, outcome, draw, sleeps, 0);
    } else {
      var jitter := draw(n, backoff / 10);
      var next := NextSleep(config, backoff, jitter, Sum(sleeps));
      if next <= 0 {
        RestStops(config, outcome, draw, sleeps, jitter);
      } else {
        WaitingStep(config, outcome, sleeps, backoff, jitter);
        RestEnds(config, outcome, draw, sleeps + [next]);
      }
    }
  }

  method RetryWithConfig(config: Config, outcome: nat -> Outcome, draw: (nat, int) -> int)
    returns (result: Result, attempts: nat, sleeps: seq<int>)
    requires Jitter(draw)
    ensures End(result, attempts, sleeps) == Retry(config, outcome, draw)
    ensures result == InvalidConfig <==> attempts == 0
    ensures attempts == 0 <==> Invalid(config)
    ensures attempts > 0 ==> Explained(config, outcome, result, attempts, sleeps)
    ensures Bounded(config, attempts, sleeps)
    ensures config.maxRetries > 0 ==> attempts <= config.maxRetries
  {
    if Invalid(config) {
      return InvalidConfig, 0, [];
    }
    RestEnds(config, outcome, draw, []);
    result, attempts, sleeps := Loop(config, outcome, draw);
  }

  method Loop(config: Config, outcome: nat -> Outcome, draw: (nat, int) -> int)
    returns (result: Result, attempts: nat, sleeps: seq<int>)
    ensures End(result, attempts, sleeps) == Rest(config, outcome, draw, [])
  {
    attempts, sleeps := 0, [];
    var backoff, waited := config.initialBackoff, 0;
    ghost var end := Rest(config, outcome, draw, []);
    while MayRetry(config, attempts)
      invariant attempts == |sleeps| && waited == Sum(sleeps) && backoff == LastBackoff(config, sleeps)
      invariant end == Rest(config, outcome, draw, sleeps)
      decreases config.capTotalWaitTime - waited
    {
      var last := outcome(attempts);
      attempts := attempts + 1;
      if last != Retryable || backoff < 10 {
        return LastResult(last, backoff), attempts, sleeps;
      }
      var jitter := draw(attempts - 1, backoff / 10);
      var next := NextSleep(config, backoff, jitter, waited);
      if next <= 0 {
        break;
      }
      SumSnoc(sleeps, next);
      backoff, waited, sleeps := next, waited + next, sleeps + [next];
    }
    return Nil, attempts, sleeps;
  }

  // --- which configurations can panic -----------------------------------------------------------------

  /** `sleep` may follow these sleeps, for some jitter. */
  ghost predicate MayFollow(config: Config, sleeps: seq<int>, sleep: int) {
    var backoff := LastBackoff(config, sleeps);
    backoff >= 10 && sleep > 0
    && exists jitter :: 0 <= jitter < backoff / 10 && NextSleep(config, backoff, jitter, Sum(sleeps)) == sleep
  }

  /** The sleeps of some run in which every attempt so far failed and could be retried. */
  ghost predicate Possible(config: Config, sleeps: seq<int>) {
    sleeps == [] || (Possible(config, sleeps[..|sleeps| - 1]) &&
        MayFollow(config, sleeps[..|sleeps| - 1], sleeps[|sleeps| - 1]))
  }

  /** Possible sleeps that leave another attempt and a backoff too small for the draw. */
  ghost predicate Trap(config: Config, sleeps: seq<int>) {
    Possible(config, sleeps) && MayRetry(config, |sleeps|) && LastBackoff(config, sleeps) < 10
  }

  ghost predicate CanPanic(config: Config) {
    !Invalid(config) && exists sleeps :: Trap(config, sleeps)
  }

  lemma {:induction false} PanicIsTrap(config: Config, outcome: nat -> Outcome, draw: (nat, int) -> int,
      sleeps: seq<int>)
    requires Jitter(draw) && Possible(config, sleeps) && Rest(config, outcome, draw, sleeps).result == Panics
    ensures Trap(config, Rest(config, outcome, draw, sleeps).sleeps)
    decreases config.capTotalWaitTime - Sum(sleeps)
  {
    var n, backoff := |sleeps|, LastBackoff(config, sleeps);
    if outcome(n) == Retryable && backoff >= 10 {
      var jitter := draw(n, backoff / 10);
      var next := NextSleep(config, backoff, jitter, Sum(sleeps));
      SumSnoc(sleeps, next);
      assert (sleeps + [next])[..n] == sleeps && MayFollow(config, sleeps, next);
      PanicIsTrap(config, outcome, draw, sleeps + [next]);
    }
  }

  /** Jitters that lead to these sleeps. */
  ghost predicate LeadsTo(config: Config, sleeps: seq<int>, jitters: seq<int>, k: nat)
    requires k < |sleeps| == |jitters|
  {
    var backoff := LastBackoff(config, sleeps[..k]);
    && backoff >= 10 && 0 <= jitters[k] < backoff / 10 && sleeps[k] > 0
    && NextSleep(config, backoff, jitters[k], Sum(sleeps[..k])) == sleeps[k]
  }

  lemma {:induction false} SomeJitters(config: Config, sleeps: seq<int>) returns (jitters: seq<int>)
    requires Possible(config, sleeps)
    ensures |jitters| == |sleeps| && forall k :: 0 <= k < |sleeps| ==> LeadsTo(config, sleeps, jitters, k)
  {
    if sleeps == [] {
      jitters := [];
    } else {
      var n := |sleeps| - 1;
      var init := sleeps[..n];
      var before := SomeJitters(config, init);
      var backoff := LastBackoff(config, init);
      var jitter :| 0 <= jitter < backoff / 10 && NextSleep(config, backoff, jitter, Sum(init)) == sleeps[n];
      jitters := before + [jitter];
      forall k | 0 <= k < |sleeps| ensures LeadsTo(config, sleeps, jitters, k) {
        if k < n {
          assert LeadsTo(config, init, before, k) && init[..k] == sleeps[..k];
        }
      }
    }
  }

  function Failing(): nat -> Outcome { _ => Retryable }

  function Drawing(jitters: seq<int>): (nat, int) -> int {
    (i: nat, bound) => if i < |jitters| && 0 <= jitters[i] < bound then jitters[i] else 0
  }

  lemma {:induction false} FollowsJitters(config: Config, sleeps: seq<int>, jitters: seq<int>, k: nat)
    requires |jitters| == |sleeps| && forall i :: 0 <= i < |sleeps| ==> LeadsTo(config, sleeps, jitters, i)
    requires k <= |sleeps| && MayRetry(config, |sleeps|)
    ensures Rest(config, Failing(), Drawing(jitters), sleeps[..k]) == Rest(config, Failing(), Drawing(jitters), sleeps)
    decreases |sleeps| - k
  {
    if k == |sleeps| {
      assert sleeps[..k] == sleeps;
    } else {
      assert LeadsTo(config, sleeps, jitters, k) && sleeps[..k] + [sleeps[k]] == sleeps[..k + 1];
      FollowsJitters(config, sleeps, jitters, k + 1);
    }
  }

  lemma TrapPanics(config: Config, sleeps: seq<int>) returns (outcome: nat -> Outcome, draw: (nat, int) -> int)
    requires !Invalid(config) && Trap(config, sleeps)
    ensures Jitter(draw) && Retry(config, outcome, draw) == End(Panics, |sleeps| + 1, sleeps)
  {
    var jitters := SomeJitters(config, sleeps);
    outcome, draw := Failing(), Drawing(jitters);
    FollowsJitters(config, sleeps, jitters, 0);
    assert sleeps[..0] == [];
  }

  /** Some outcomes and some draws make the call panic exactly when the configuration has a trap. */
  lemma PanicNeedsTrap(config: Config)
    ensures (exists outcome, draw :: Jitter(draw) && Retry(config, outcome, draw).result == Panics) <==>
      CanPanic(config)
  {
    if outcome, draw :| Jitter(draw) && Retry(config, outcome, draw).result == Panics {
      PanicIsTrap(config, outcome, draw, []);
    }
    if CanPanic(config) {
      var sleeps :| Trap(config, sleeps);
      var outcome, draw := TrapPanics(config, sleeps);
    }
  }

  // --- the same condition on the numbers of the configuration ------------------------------------------

  function Least(config: Config): int { Min(config.initialBackoff, config.maxBackoff) }

  /** The longest sleep that may follow a backoff. */
  function Grown(config: Config, backoff: int): int { Min(backoff + backoff / 10 - 1, config.maxBackoff) }

  /** The most that `m` sleeps after a backoff can add up to. */
  function Most(config: Config, backoff: int, m: nat): int
    decreases m
  {
    if m == 0 then 0 else Grown(config, backoff) + Most(config, Grown(config, backoff), m - 1)
  }

  /** The largest number of sleeps that can end before the cap and leave two more attempts. */
  function Rounds(config: Config): int
    requires Least(config) > 0
  {
    var fit := (config.capTotalWaitTime - 1) / Least(config);
    if config.maxRetries > 0 then Min(fit, config.maxRetries - 2) else fit
  }

  /**
    The configurations that can panic. The initial backoff is too small; or the first sleep is; or a cut
    last sleep can be, because that many full sleeps can stop less than ten short of the cap.
  */
  predicate Unsafe(config: Config) {
    && !Invalid(config)
    && (|| config.initialBackoff < 10
        || (config.maxBackoff > 0 && config.capTotalWaitTime > 0 && config.maxRetries != 1 &&
            (config.maxBackoff < 10 ||
             config.capTotalWaitTime <= Most(config, config.initialBackoff, Rounds(config)) + 9)))
  }

  ghost predicate LargeBackoffs(config: Config) { config.initialBackoff >= 10 && config.maxBackoff >= 10 }

  lemma {:induction false} MostGrows(config: Config, a: int, b: int, m: nat)
    requires 10 <= a <= b && config.maxBackoff >= 10
    ensures Most(config, a, m) <= Most(config, b, m)
    decreases m
  {
    if m > 0 {
      MostGrows(config, Grown(config, a), Grown(config, b), m - 1);
    }
  }

  lemma {:induction false} MoreIsMore(config: Config, b: int, m: nat, n: nat)
    requires b >= 10 && config.maxBackoff >= 10 && m <= n
    ensures 0 <= Most(config, b, m) <= Most(config, b, n)
    decreases n
  {
    if n > 0 {
      MoreIsMore(config, Grown(config, b), if m == 0 then 0 else m - 1, n - 1);
    }
  }

  /** Uncut sleeps never fall, so they add up to at least as many times the first. */
  lemma {:induction false} MostAtLeast(config: Config, b: int, m: nat)
    requires b >= 10 && config.maxBackoff >= 10
    ensures m * Grown(config, b) <= Most(config, b, m)
    decreases m
  {
    if m > 0 {
      var g := Grown(config, b);
      MostAtLeast(config, g, m - 1);
      ProductMonotone(m - 1, g, Grown(config, g));
    }
  }

  lemma ProductMonotone(m: nat, a: int, b: int)
    requires a <= b
    ensures m * a <= m * b
  {
  }

  // --- what sums the sleeps can have -----------------------------------------------------------------

  /** A sleep that follows the backoff without being cut. */
  predicate Uncut(config: Config, backoff: int, sleep: int) {
    Min(backoff, config.maxBackoff) <= sleep <= Grown(config, backoff)
  }

  /** Sleeps after a backoff, none of them cut. */
  predicate AllUncut(config: Config, backoff: int, sleeps: seq<int>)
    decreases |sleeps|
  {
    sleeps == [] || (Uncut(config, backoff, sleeps[0]) && AllUncut(config, sleeps[0], sleeps[1..]))
  }

  lemma {:induction false} SumCons(x: int, sleeps: seq<int>)
    ensures Sum([x] + sleeps) == x + Sum(sleeps)
  {
    var n := |sleeps| - 1;
    if n < 0 {
      assert [x] + sleeps == [] + [x];
      SumSnoc([], x);
    } else {
      SumCons(x, sleeps[..n]);
      assert ([x] + sleeps)[..n + 1] == [x] + sleeps[..n];
    }
  }

  /** The first of `m` sleeps with the sum `total`, found by trying smaller ones. */
  lemma {:induction false} FirstSleep(config: Config, b: int, m: nat, total: int, x: int) returns (first: int)
    requires b >= 10 && config.maxBackoff >= 10 && m > 0 && m * Min(b, config.maxBackoff) <= total
    requires Uncut(config, b, x) && total <= x + Most(config, x, m - 1)
    ensures Uncut(config, b, first) && m * first <= total <= first + Most(config, first, m - 1)
    decreases x
  {
    if x == Min(b, config.maxBackoff) {
      first := x;
    } else if total <= x - 1 + Most(config, x - 1, m - 1) {
      first := FirstSleep(config, b, m, total, x - 1);
    } else {
      // Sleeps from x - 1 on can still grow, so all but the first are at least x.
      first := x;
      MostAtLeast(config, x - 1, m - 1);
      ProductMonotone(m - 1, x, Grown(config, x - 1));
      assert m * x == x + (m - 1) * x;
    }
  }

  /** Every sum between the smallest and the largest is that of some uncut sleeps. */
  lemma {:induction false} SumsFill(config: Config, b: int, m: nat, total: int) returns (sleeps: seq<int>)
    requires b >= 10 && config.maxBackoff >= 10
    requires m * Min(b, config.maxBackoff) <= total <= Most(config, b, m)
    ensures |sleeps| == m && AllUncut(config, b, sleeps) && Sum(sleeps) == total
    decreases m
  {
    if m == 0 {
      sleeps := [];
    } else {
      var first := FirstSleep(config, b, m, total, Grown(config, b));
      assert m * first == first + (m - 1) * first;
      var rest := SumsFill(config, first, m - 1, total - first);
      sleeps := [first] + rest;
      SumCons(first, rest);
    }
  }

  lemma UncutMayFollow(config: Config, sleeps: seq<int>, sleep: int)
    requires LargeBackoffs(config) && LastBackoff(config, sleeps) >= 10
    requires Uncut(config, LastBackoff(config, sleeps), sleep) && Sum(sleeps) + sleep <= config.capTotalWaitTime
    ensures MayFollow(config, sleeps, sleep)
  {
    var backoff := LastBackoff(config, sleeps);
    var jitter := if backoff <= sleep then sleep - backoff else 0;
    assert 0 <= jitter < backoff / 10 && NextSleep(config, backoff, jitter, Sum(sleeps)) == sleep;
  }

  lemma PossibleSnoc(config: Config, sleeps: seq<int>, sleep: int)
    requires Possible(config, sleeps) && MayFollow(config, sleeps, sleep)
    ensures Possible(config, sleeps + [sleep])
  {
    assert (sleeps + [sleep])[..|sleeps|] == sleeps;
  }

  lemma {:induction false} UncutIsPositive(config: Config, b: int, sleeps: seq<int>)
    requires b >= 10 && config.maxBackoff >= 10 && AllUncut(config, b, sleeps)
    ensures Sum(sleeps) >= 0
    decreases |sleeps|
  {
    if sleeps != [] {
      UncutIsPositive(config, sleeps[0], sleeps[1..]);
      SumCons(sleeps[0], sleeps[1..]);
      assert sleeps == [sleeps[0]] + sleeps[1..];
    }
  }

  /** A point at which the loop can be, with a backoff that is large enough. */
  ghost predicate Ready(config: Config, sleeps: seq<int>, waited: int) {
    Possible(config, sleeps) && Sum(sleeps) == waited && LastBackoff(config, sleeps) >= 10
  }

  lemma UncutStep(config: Config, done: seq<int>, waited: int, x: int, rest: seq<int>, all: seq<int>)
    requires LargeBackoffs(config) && Ready(config, done, waited)
    requires Uncut(config, LastBackoff(config, done), x) && waited + x <= config.capTotalWaitTime
    requires all == done + ([x] + rest)
    ensures Ready(config, done + [x], waited + x) && LastBackoff(config, done + [x]) == x
    ensures all == done + [x] + rest
  {
    UncutMayFollow(config, done, x);
    PossibleSnoc(config, done, x);
    SumSnoc(done, x);
  }

  /** Uncut sleeps within the cap are possible. */
  lemma {:induction false} UncutIsPossible(config: Config, done: seq<int>, waited: int, sleeps: seq<int>, all: seq<int>)
    requires LargeBackoffs(config) && Ready(config, done, waited) && AllUncut(config, LastBackoff(config, done), sleeps)
    requires waited + Sum(sleeps) <= config.capTotalWaitTime && all == done + sleeps
    ensures Ready(config, all, waited + Sum(sleeps))
    decreases |sleeps|
  {
    if sleeps == [] {
      assert all == done;
    } else {
      var x, rest := sleeps[0], sleeps[1..];
      assert sleeps == [x] + rest;
      SumCons(x, rest);
      UncutIsPositive(config, x, rest);
      UncutStep(config, done, waited, x, rest, all);
      UncutIsPossible(config, done + [x], waited + x, rest, all);
    }
  }

  /** A sleep that does not use up the cap is not cut. */
  lemma SleepIsUncut(config: Config, sleeps: seq<int>, sleep: int)
    requires MayFollow(config, sleeps, sleep) && Sum(sleeps) + sleep < config.capTotalWaitTime
    ensures Uncut(config, LastBackoff(config, sleeps), sleep)
  {
  }

  /** As long as the cap is not used up no sleep was cut, which bounds the sum on both sides. */
  lemma {:induction false} UncutSums(config: Config, sleeps: seq<int>, k: nat)
    requires LargeBackoffs(config) && Possible(config, sleeps)
    requires sleeps == [] || Sum(sleeps) < config.capTotalWaitTime
    ensures LastBackoff(config, sleeps) >= Least(config)
    ensures |sleeps| * Least(config) <= Sum(sleeps)
    ensures Sum(sleeps) + Most(config, LastBackoff(config, sleeps), k)
         <= Most(config, config.initialBackoff, |sleeps| + k)
    decreases |sleeps|
  {
    if sleeps != [] {
      var n := |sleeps| - 1;
      var init, x := sleeps[..n], sleeps[n];
      SleepIsUncut(config, init, x);
      UncutSums(config, init, k + 1);
      MostGrows(config, x, Grown(config, LastBackoff(config, init)), k);
      assert (n + 1) * Least(config) == n * Least(config) + Least(config);
    }
  }

  // --- the condition is exact ---------------------------------------------------------------------------

  lemma NoSleepWithoutRoom(config: Config, sleeps: seq<int>)
    requires config.initialBackoff >= 10 && (config.maxBackoff <= 0 || config.capTotalWaitTime <= 0)
    requires Possible(config, sleeps)
    ensures sleeps == []
    decreases |sleeps|
  {
    if sleeps != [] {
      NoSleepWithoutRoom(config, sleeps[..|sleeps| - 1]);
    }
  }

  /** A trap ends with a cut sleep that uses up the cap after full ones. */
  lemma TrapIsCut(config: Config, sleeps: seq<int>)
    requires LargeBackoffs(config) && config.capTotalWaitTime > 0 && Trap(config, sleeps)
    ensures |sleeps| > 0 && |sleeps| - 1 <= Rounds(config)
    ensures config.capTotalWaitTime <= Most(config, config.initialBackoff, |sleeps| - 1) + 9
  {
    var n := |sleeps| - 1;
    var init := sleeps[..n];
    assert Sum(init) < config.capTotalWaitTime;
    UncutSums(config, init, 0);
    QuotientBound(n, Least(config), config.capTotalWaitTime - 1);
  }

  lemma TrapIsUnsafe(config: Config, sleeps: seq<int>)
    requires !Invalid(config) && Trap(config, sleeps)
    ensures Unsafe(config)
  {
    if config.initialBackoff >= 10 {
      if config.maxBackoff <= 0 || config.capTotalWaitTime <= 0 {
        NoSleepWithoutRoom(config, sleeps);
      } else if config.maxBackoff >= 10 {
        TrapIsCut(config, sleeps);
        MoreIsMore(config, config.initialBackoff, |sleeps| - 1, Rounds(config));
      }
    }
  }

  /** Full sleeps that stop less than ten short of the cap, and the cut one after them. */
  lemma CutTrap(config: Config) returns (sleeps: seq<int>)
    requires LargeBackoffs(config) && config.capTotalWaitTime > 0 && config.maxRetries != 1
    requires config.capTotalWaitTime <= Most(config, config.initialBackoff, Rounds(config)) + 9
    ensures Trap(config, sleeps)
  {
    var m, cap := Rounds(config), config.capTotalWaitTime;
    RoundsFit(config);
    MostAtLeast(config, config.initialBackoff, m);
    ProductMonotone(m, Least(config), Grown(config, config.initialBackoff));
    var total := if cap - 9 < m * Least(config) then m * Least(config) else cap - 9;
    var full := SumsFill(config, config.initialBackoff, m, total);
    UncutIsPossible(config, [], 0, full, full);
    assert NextSleep(config, LastBackoff(config, full), 0, total) == cap - total;
    assert MayFollow(config, full, cap - total);
    PossibleSnoc(config, full, cap - total);
    sleeps := full + [cap - total];
  }

  lemma RoundsFit(config: Config)
    requires LargeBackoffs(config) && config.capTotalWaitTime > 0 && config.maxRetries != 1
    ensures Rounds(config) >= 0 && Rounds(config) * Least(config) < config.capTotalWaitTime
    ensures MayRetry(config, Rounds(config) + 1)
  {
    var fit := (config.capTotalWaitTime - 1) / Least(config);
    assert fit * Least(config) <= config.capTotalWaitTime - 1;
    ProductGrows(Rounds(config), fit, Least(config));
  }

  /** The first sleep is too small already. */
  lemma SmallTrap(config: Config) returns (sleeps: seq<int>)
    requires config.initialBackoff >= 10 && 0 < config.maxBackoff < 10
    requires config.capTotalWaitTime > 0 && config.maxRetries != 1
    ensures Trap(config, sleeps)
  {
    var x := Min(config.maxBackoff, config.capTotalWaitTime);
    assert 0 < config.initialBackoff / 10 && NextSleep(config, LastBackoff(config, []), 0, Sum([])) == x;
    assert MayFollow(config, [], x);
    PossibleSnoc(config, [], x);
    sleeps := [] + [x];
  }

  lemma UnsafeHasTrap(config: Config) returns (sleeps: seq<int>)
    requires Unsafe(config)
    ensures Trap(config, sleeps)
  {
    if config.initialBackoff < 10 {
      sleeps := [];
    } else if config.maxBackoff < 10 {
      sleeps := SmallTrap(config);
    } else {
      sleeps := CutTrap(config);
    }
  }

  /** Some outcomes and some draws make the call panic if and only if the configuration is unsafe. */
  lemma PanicsExactly(config: Config)
    ensures (exists outcome, draw :: Jitter(draw) && Retry(config, outcome, draw).result == Panics) <==> Unsafe(config)
  {
    PanicNeedsTrap(config);
    if CanPanic(config) {
      var sleeps :| Trap(config, sleeps);
      TrapIsUnsafe(config, sleeps);
    }
    if Unsafe(config) {
      var sleeps := UnsafeHasTrap(config);
    }
  }

  // --- the configurations that the code builds -------------------------------------------------------------

  /** What the lock manager waits with: 10 ms growing to 250 ms, for an hour, in nanoseconds. */
  const LOCK_DEFAULTS := Config(-1, 10_000_000, 250_000_000, 3_600_000_000_000)

  /** Three retries of 5 ms to 50 ms, for 50 ms. */
  const DEFAULTS := Config(3, 5_000_000, 50_000_000, 50_000_000)

  /** The lock manager's own configuration can panic: its sleeps can stop nine nanoseconds short of the hour. */
  lemma LockDefaultsPanic() returns (outcome: nat -> Outcome, draw: (nat, int) -> int)
    ensures Jitter(draw) && Retry(LOCK_DEFAULTS, outcome, draw).result == Panics
  {
    assert Rounds(LOCK_DEFAULTS) == 359_999 && Grown(LOCK_DEFAULTS, 10_000_000) == 10_999_999;
    MostAtLeast(LOCK_DEFAULTS, 10_000_000, 359_999);
    PanicsExactly(LOCK_DEFAULTS);
    outcome, draw :| Jitter(draw) && Retry(LOCK_DEFAULTS, outcome, draw).result == Panics;
  }

  /** The default configuration cannot: its cap is out of reach of the two sleeps before the last attempt. */
  lemma DefaultsNeverPanic(outcome: nat -> Outcome, draw: (nat, int) -> int)
    requires Jitter(draw)
    ensures Retry(DEFAULTS, outcome, draw).result != Panics
  {
    assert Rounds(DEFAULTS) == 1 && Most(DEFAULTS, 5_000_000, 1) == 5_499_999;
    PanicsExactly(DEFAULTS);
  }

  lemma {:induction false} MostAtMost(config: Config, b: int, m: nat)
    ensures Most(config, b, m) <= m * config.maxBackoff
    decreases m
  {
    if m > 0 {
      MostAtMost(config, Grown(config, b), m - 1);
      assert m * config.maxBackoff == config.maxBackoff + (m - 1) * config.maxBackoff;
    }
  }

  lemma TwoSleepsLeft(retries: int, rounds: int, longest: int)
    requires rounds <= retries - 2 && longest >= 10
    ensures rounds * longest + 20 <= retries * longest
  {
    ProductGrows(rounds, retries - 2, longest);
    assert (retries - 2) * longest == retries * longest - 2 * longest;
  }

  /** A rule of thumb: large enough backoffs and a cap that covers all retries at the largest one are safe. */
  lemma SafeNeverPanics(config: Config)
    requires LargeBackoffs(config) && 0 < config.maxRetries
    requires config.maxRetries * config.maxBackoff <= config.capTotalWaitTime
    ensures !Unsafe(config)
  {
    if config.maxRetries != 1 && config.capTotalWaitTime > 0 {
      RoundsFit(config);
      MostAtMost(config, config.initialBackoff, Rounds(config));
      TwoSleepsLeft(config.maxRetries, Rounds(config), config.maxBackoff);
    }
  }
}
