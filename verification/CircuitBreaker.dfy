/** The adaptive circuit breaker of pkg/uiauto/circuit_breaker.go. */
module CircuitBreaking {
  import opened Collections

  // `Breaker` is the specification: it keeps the whole outcome history. The class keeps only a ring of the last outcomes
  // and refines it. Clock readings are arguments; failure rates are exact.

  datatype State = Closed | Open | HalfOpen

  datatype Config = Config(
    failureThreshold: int,
    successThreshold: int,
    openDuration: int,
    halfOpenMax: int,
    windowSize: int
  )

  /** The defaults for settings that are not positive; a window that is not positive means no window. */
  function Normalised(c: Config, halfMinute: int): (n: Config)
    requires halfMinute > 0
    ensures Normal(n) && n.windowSize == c.windowSize
    ensures Normal(c) ==> n == c
    ensures c.failureThreshold <= 0 ==> n.failureThreshold == 3
    ensures c.successThreshold <= 0 ==> n.successThreshold == 2
    ensures c.openDuration <= 0 ==> n.openDuration == halfMinute
    ensures c.halfOpenMax <= 0 ==> n.halfOpenMax == 1
  {
    Config(
      if c.failureThreshold <= 0 then 3 else c.failureThreshold,
      if c.successThreshold <= 0 then 2 else c.successThreshold,
      if c.openDuration <= 0 then halfMinute else c.openDuration,
      if c.halfOpenMax <= 0 then 1 else c.halfOpenMax,
      c.windowSize)
  }

  predicate Normal(c: Config) {
    c.failureThreshold >= 1 && c.successThreshold >= 1 && c.openDuration >= 1 && c.halfOpenMax >= 1
  }

  // -------------------------------------------------------------- the window

  function Failures(h: seq<bool>): nat {
    if h == [] then 0 else Failures(h[..|h| - 1]) + (if h[|h| - 1] then 0 else 1)
  }

  function LastN(h: seq<bool>, n: nat): seq<bool> {
    if |h| <= n then h else h[|h| - n..]
  }

  /** The share of failures in a window, zero for an empty one. */
  function FailureRate(w: seq<bool>): real {
    if w == [] then 0.0 else Failures(w) as real / |w| as real
  }

  /** The number of consecutive failures that trips a closed breaker whose history is `h`. */
  function Threshold(c: Config, h: seq<bool>): int {
    if c.windowSize <= 0 then c.failureThreshold
    else
      var rate := FailureRate(LastN(h, c.windowSize));
      if rate > 0.5 then (if c.failureThreshold > 1 then c.failureThreshold - 1 else 1)
      else if rate < 0.1 && c.failureThreshold < 5 then c.failureThreshold + 1
      else c.failureThreshold
  }

  lemma {:induction false} FailuresConcat(a: seq<bool>, b: seq<bool>)
    ensures Failures(a + b) == Failures(a) + Failures(b)
  {
    if b == [] {
      assert a + b == a;
    } else {
      var front := b[..|b| - 1];
      FailuresConcat(a, front);
      assert (a + b)[..|a + b| - 1] == a + front;
    }
  }

  lemma FailuresPush(h: seq<bool>, outcome: bool)
    ensures Failures(h + [outcome]) == Failures(h) + (if outcome then 0 else 1)
  {
    assert (h + [outcome])[..|h|] == h;
  }

  lemma {:induction false} FailuresBounded(h: seq<bool>)
    ensures Failures(h) <= |h|
  {
    if h != [] {
      FailuresBounded(h[..|h| - 1]);
    }
  }

  lemma RatioCompared(f: real, n: real)
    requires n > 0.0
    ensures f / n > 0.5 <==> 2.0 * f > n
    ensures f / n < 0.1 <==> 10.0 * f < n
  {
    var rate := f / n;
    assert f == rate * n;
    assert rate > 0.5 ==> rate * n > 0.5 * n;
    assert rate <= 0.5 ==> rate * n <= 0.5 * n;
    assert rate < 0.1 ==> rate * n < 0.1 * n;
    assert rate >= 0.1 ==> rate * n >= 0.1 * n;
  }

  /** The rate comparisons without division. */
  lemma RateCompared(w: seq<bool>)
    requires w != []
    ensures FailureRate(w) > 0.5 <==> 2 * Failures(w) > |w|
    ensures FailureRate(w) < 0.1 <==> 10 * Failures(w) < |w|
  {
    hide Failures;
    RatioCompared(Failures(w) as real, |w| as real);
  }

  ghost predicate EndsInFailures(h: seq<bool>, k: nat) {
    k <= |h| && forall i :: |h| - k <= i < |h| ==> !h[i]
  }

  lemma {:induction false} AllFailures(w: seq<bool>)
    requires forall i :: 0 <= i < |w| ==> !w[i]
    ensures Failures(w) == |w|
  {
    if w != [] {
      AllFailures(w[..|w| - 1]);
    }
  }

  /** A run of failures at the end of the history shows in the window, as far as it fits. */
  lemma TrailingFailuresInWindow(h: seq<bool>, k: nat, n: nat)
    requires EndsInFailures(h, k)
    ensures Failures(LastN(h, n)) >= (if k <= n then k else n)
  {
    var w := LastN(h, n);
    var m := if k <= n then k else n;
    assert m <= |w|;
    assert w == w[..|w| - m] + w[|w| - m..];
    FailuresConcat(w[..|w| - m], w[|w| - m..]);
    AllFailures(w[|w| - m..]);
  }

  // ------------------------------------------------------- the specification

  datatype Breaker = Breaker(
    cfg: Config,
    state: State,
    failures: nat,      // consecutive
    successes: nat,     // consecutive
    lastFailure: int,
    totalTrips: nat,
    history: seq<bool>  // every outcome, oldest first
  )

  function NewBreaker(cfg: Config): Breaker {
    Breaker(cfg, Closed, 0, 0, 0, 0, [])
  }

  datatype Event = Allow(now: int) | Success | Failure(now: int) | Reset

  /** Whether Allow lets a request through. */
  predicate Admits(b: Breaker, now: int) {
    b.state != Open || now - b.lastFailure >= b.cfg.openDuration
  }

  function Step(b: Breaker, e: Event): Breaker {
    match e
    case Allow(now) =>
      if b.state == Open && Admits(b, now) then b.(state := HalfOpen, successes := 0) else b
    case Success =>
      var s := b.(failures := 0, successes := b.successes + 1, history := b.history + [true]);
      if b.state == HalfOpen && s.successes >= b.cfg.successThreshold then s.(state := Closed) else s
    case Failure(now) =>
      var f := b.(failures := b.failures + 1, successes := 0, lastFailure := now, history := b.history + [false]);
      if (b.state == Closed && f.failures >= Threshold(b.cfg, b.history)) || b.state == HalfOpen
      then f.(state := Open, totalTrips := b.totalTrips + 1)
      else f
    case Reset => b.(state := Closed, failures := 0, successes := 0)
  }

  function Run(b: Breaker, es: seq<Event>): Breaker {
    if es == [] then b else Step(Run(b, es[..|es| - 1]), es[|es| - 1])
  }

  /** The window cannot make a failure-free history lenient enough to swallow a full threshold of failures. */
  predicate WindowIsTight(c: Config) {
    c.failureThreshold >= 5 || c.windowSize <= 10 * (c.failureThreshold - 1)
  }

  ghost predicate Invariant(b: Breaker) {
    && EndsInFailures(b.history, b.failures)
    && (b.state == Closed ==> b.failures <= b.cfg.failureThreshold)
    && (b.state == Closed && WindowIsTight(b.cfg) ==> b.failures < b.cfg.failureThreshold)
    && (b.state == HalfOpen ==> b.successes < b.cfg.successThreshold)
  }

  lemma ThresholdRange(c: Config, h: seq<bool>)
    requires Normal(c)
    ensures 1 <= c.failureThreshold - 1 || Threshold(c, h) >= 1
    ensures c.failureThreshold - 1 <= Threshold(c, h) <= c.failureThreshold + 1
  {
  }

  /**
   The threshold by the counts in the window: lowered if more than half of it are failures, raised if less than a
   tenth, the empty window included, unless it is 5 or more already.
   */
  lemma ThresholdExactly(c: Config, h: seq<bool>)
    requires Normal(c) && c.windowSize > 0
    ensures var w := LastN(h, c.windowSize);
      && (2 * Failures(w) > |w| ==> Threshold(c, h) == if c.failureThreshold == 1 then 1 else c.failureThreshold - 1)
      && (10 * Failures(w) < |w| || w == [] ==>
            Threshold(c, h) == if c.failureThreshold < 5 then c.failureThreshold + 1 else c.failureThreshold)
      && (w != [] && |w| <= 10 * Failures(w) && 2 * Failures(w) <= |w| ==> Threshold(c, h) == c.failureThreshold)
  {
    hide Failures;
    var w := LastN(h, c.windowSize);
    if w != [] {
      RateCompared(w);
    } else {
      NoFailures(0);
      assert w == Repeat(true, 0);
    }
  }

  /** With a tight window, a history that ends in one failure less than the threshold is not treated leniently. */
  lemma TightWindowIsNotLenient(c: Config, h: seq<bool>)
    requires Normal(c) && WindowIsTight(c) && EndsInFailures(h, c.failureThreshold - 1)
    ensures Threshold(c, h) <= c.failureThreshold
  {
    if c.windowSize > 0 && c.failureThreshold < 5 {
      var w := LastN(h, c.windowSize);
      TrailingFailuresInWindow(h, c.failureThreshold - 1, c.windowSize);
      if w != [] {
        RateCompared(w);
      }
    }
  }

  lemma StepKeepsInvariant(b: Breaker, e: Event)
    requires Normal(b.cfg) && Invariant(b)
    ensures Invariant(Step(b, e)) && Step(b, e).cfg == b.cfg
  {
    hide Threshold;
    match e
    case Failure(now) =>
      var c := Step(b, e);
      ThresholdRange(b.cfg, b.history);
      if WindowIsTight(b.cfg) && b.state == Closed && b.failures == b.cfg.failureThreshold - 1 {
        TightWindowIsNotLenient(b.cfg, b.history);
      }
    case _ =>
  }

  lemma {:induction false} RunKeepsInvariant(b: Breaker, es: seq<Event>)
    requires Normal(b.cfg) && Invariant(b)
    ensures Invariant(Run(b, es)) && Run(b, es).cfg == b.cfg
  {
    if es != [] {
      RunKeepsInvariant(b, es[..|es| - 1]);
      StepKeepsInvariant(Run(b, es[..|es| - 1]), es[|es| - 1]);
    }
  }

  /** A closed breaker trips exactly at the adapted threshold, and never before one failure less than configured. */
  lemma NoEarlyTrip(b: Breaker, e: Event)
    requires Normal(b.cfg) && b.state == Closed && Step(b, e).state == Open
    ensures e.Failure? && Step(b, e).failures == b.failures + 1
    ensures Step(b, e).failures >= 1 && Step(b, e).failures >= b.cfg.failureThreshold - 1
    ensures Step(b, e).totalTrips == b.totalTrips + 1
  {
    ThresholdRange(b.cfg, b.history);
  }

  // ------------------------------------------- how many failures stay closed

  lemma {:induction false} NoFailures(n: nat)
    ensures Failures(Repeat(true, n)) == 0
  {
    if n > 0 {
      NoFailures(n - 1);
      assert Repeat(true, n)[..n - 1] == Repeat(true, n - 1);
    }
  }

  lemma {:induction false} RunSuccesses(c: Config, n: nat)
    ensures Run(NewBreaker(c), Repeat(Success, n))
            == NewBreaker(c).(successes := n, history := Repeat(true, n))
  {
    if n > 0 {
      RunSuccesses(c, n - 1);
      assert Repeat(Success, n)[..n - 1] == Repeat(Success, n - 1);
      assert Repeat(true, n) == Repeat(true, n - 1) + [true];
    } else {
      assert Repeat(Success, 0) == [] && Repeat(true, 0) == [];
    }
  }

  lemma LenientAfterSuccesses(c: Config, j: nat)
    requires Normal(c) && !WindowIsTight(c) && j < c.failureThreshold
    ensures Threshold(c, Repeat(true, c.windowSize) + Repeat(false, j)) == c.failureThreshold + 1
  {
    hide FailureRate, Failures;
    var n: nat := c.windowSize;
    var h := Repeat(true, n) + Repeat(false, j);
    var w := LastN(h, n);
    assert w == Repeat(true, n - j) + Repeat(false, j);
    FailuresConcat(Repeat(true, n - j), Repeat(false, j));
    NoFailures(n - j);
    FailuresBounded(Repeat(false, j));
    RateCompared(w);
  }

  /** A full window of successes followed by a full threshold of failures leaves a loose breaker closed. */
  lemma {:induction false} LooseRun(c: Config, j: nat)
    requires Normal(c) && !WindowIsTight(c) && j <= c.failureThreshold
    ensures var b := Run(NewBreaker(c), Repeat(Success, c.windowSize) + Repeat(Failure(0), j));
            && b.cfg == c && b.state == Closed && b.failures == j
            && b.history == Repeat(true, c.windowSize) + Repeat(false, j)
  {
    hide Threshold;
    var n: nat := c.windowSize;
    var es := Repeat(Success, n) + Repeat(Failure(0), j);
    if j == 0 {
      RunSuccesses(c, n);
      assert es == Repeat(Success, n);
      assert Repeat(true, n) + Repeat(false, 0) == Repeat(true, n);
    } else {
      LooseRun(c, j - 1);
      LenientAfterSuccesses(c, j - 1);
      assert es[..|es| - 1] == Repeat(Success, n) + Repeat(Failure(0), j - 1);
      assert Repeat(true, n) + Repeat(false, j) == (Repeat(true, n) + Repeat(false, j - 1)) + [false];
    }
  }

  ghost predicate StaysBelowThreshold(c: Config) {
    forall es :: Run(NewBreaker(c), es).state == Closed ==> Run(NewBreaker(c), es).failures < c.failureThreshold
  }

  /** In every run a closed breaker has at most the configured number of consecutive failures. */
  lemma ClosedFailuresBounded(c: Config, es: seq<Event>)
    requires Normal(c)
    ensures Run(NewBreaker(c), es).state == Closed ==> Run(NewBreaker(c), es).failures <= c.failureThreshold
  {
    RunKeepsInvariant(NewBreaker(c), es);
  }

  /** It has fewer in every run exactly when the window is tight. */
  lemma ClosedFailuresBelowExactly(c: Config)
    requires Normal(c)
    ensures StaysBelowThreshold(c) <==> WindowIsTight(c)
  {
    if WindowIsTight(c) {
      forall es ensures Run(NewBreaker(c), es).state == Closed ==> Run(NewBreaker(c), es).failures < c.failureThreshold {
        RunKeepsInvariant(NewBreaker(c), es);
      }
    } else {
      var es := Repeat(Success, c.windowSize) + Repeat(Failure(0), c.failureThreshold);
      LooseRun(c, c.failureThreshold);
      assert Run(NewBreaker(c), es).failures == c.failureThreshold;
    }
  }

  // ---------------------------------------------------------------- recovery

  /**
   An open breaker stays open and rejects every request until the open duration has passed since its last
   failure, whatever successes and further failures are reported meanwhile; only a reset ends this earlier.
   */
  lemma {:induction false} OpenUntilDue(b: Breaker, es: seq<Event>)
    requires b.state == Open && Reset !in es
    requires forall i :: 0 <= i < |es| && es[i].Failure? ==> es[i].now >= b.lastFailure
    requires forall i :: 0 <= i < |es| && es[i].Allow? ==> es[i].now < b.lastFailure + b.cfg.openDuration
    ensures var c := Run(b, es);
            c.state == Open && c.lastFailure >= b.lastFailure && c.cfg == b.cfg && c.totalTrips == b.totalTrips
    ensures forall i :: 0 <= i < |es| && es[i].Allow? ==> !Admits(Run(b, es[..i]), es[i].now)
  {
    if es != [] {
      var front := es[..|es| - 1];
      OpenUntilDue(b, front);
      assert es[|es| - 1] in es;
      forall i | 0 <= i < |es| && es[i].Allow? ensures !Admits(Run(b, es[..i]), es[i].now) {
        assert i < |front| ==> es[..i] == front[..i] && es[i] == front[i];
      }
    }
  }

  /** A breaker that has just become half-open closes with exactly the configured number of successes in a row. */
  lemma {:induction false} ClosesAfterSuccesses(b: Breaker, k: nat)
    requires Normal(b.cfg) && b.state == HalfOpen && b.successes == 0
    ensures Run(b, Repeat(Success, k)).state == (if k >= b.cfg.successThreshold then Closed else HalfOpen)
    ensures Run(b, Repeat(Success, k)).successes == k && Run(b, Repeat(Success, k)).cfg == b.cfg
  {
    if k > 0 {
      ClosesAfterSuccesses(b, k - 1);
      assert Repeat(Success, k)[..k - 1] == Repeat(Success, k - 1);
    } else {
      assert Repeat(Success, 0) == [];
    }
  }

  /** A closed breaker without counted failures, as a reset leaves it, stays closed for two failures less than configured. */
  lemma {:induction false} FewFailuresStayClosed(b: Breaker, es: seq<Event>)
    requires Normal(b.cfg) && FailuresReported(es) <= b.cfg.failureThreshold - 2
    ensures var c := Run(Step(b, Reset), es);
      c.state == Closed && c.failures <= FailuresReported(es) && c.cfg == b.cfg
  {
    if es != [] {
      var front := es[..|es| - 1];
      FewFailuresStayClosed(b, front);
      ThresholdRange(b.cfg, Run(Step(b, Reset), front).history);
    }
  }

  function FailuresReported(es: seq<Event>): nat {
    if es == [] then 0 else FailuresReported(es[..|es| - 1]) + (if es[|es| - 1].Failure? then 1 else 0)
  }

  function SuccessesReported(es: seq<Event>): nat {
    if es == [] then 0 else SuccessesReported(es[..|es| - 1]) + (if es[|es| - 1].Success? then 1 else 0)
  }

  /** Requests and fewer successes than needed leave a half-open breaker half-open. */
  lemma {:induction false} ProbingStaysHalfOpen(b: Breaker, es: seq<Event>)
    requires b.state == HalfOpen && forall i :: 0 <= i < |es| ==> es[i].Allow? || es[i].Success?
    requires b.successes + SuccessesReported(es) < b.cfg.successThreshold
    ensures var c := Run(b, es);
      && c.state == HalfOpen && c.successes == b.successes + SuccessesReported(es)
      && c.cfg == b.cfg && c.totalTrips == b.totalTrips
  {
    if es != [] {
      ProbingStaysHalfOpen(b, es[..|es| - 1]);
    }
  }

  /**
   A failure that reaches a half-open breaker before enough successes reopens it and counts as a trip; from then on
   nothing is admitted until the open duration has passed since that failure, whatever is reported short of a reset.
   */
  lemma FailureReopens(b: Breaker, probing: seq<Event>, now: int, after: seq<Event>)
    requires b.state == HalfOpen && forall i :: 0 <= i < |probing| ==> probing[i].Allow? || probing[i].Success?
    requires b.successes + SuccessesReported(probing) < b.cfg.successThreshold
    requires Reset !in after && forall i :: 0 <= i < |after| && after[i].Failure? ==> after[i].now >= now
    requires forall i :: 0 <= i < |after| && after[i].Allow? ==> after[i].now < now + b.cfg.openDuration
    ensures var c := Run(b, probing + [Failure(now)]);
      && c.state == Open && c.lastFailure == now && c.totalTrips == b.totalTrips + 1
      && Run(c, after).state == Open && Run(c, after).totalTrips == b.totalTrips + 1
      && forall i :: 0 <= i < |after| && after[i].Allow? ==> !Admits(Run(c, after[..i]), after[i].now)
  {
    ProbingStaysHalfOpen(b, probing);
    var es := probing + [Failure(now)];
    assert es[..|es| - 1] == probing;
    OpenUntilDue(Run(b, es), after);
  }

  /** Since it became half-open at `k`, by a request that was due, a breaker has heard too few successes and no failure. */
  ghost predicate ProbingSince(b: Breaker, es: seq<Event>, k: nat) {
    && k < |es| && es[k].Allow? && Run(b, es[..k]).state == Open && Admits(Run(b, es[..k]), es[k].now)
    && (forall i :: k < i < |es| ==> es[i].Allow? || es[i].Success?)
    && SuccessesReported(es[k + 1..]) == Run(b, es).successes < Run(b, es).cfg.successThreshold
  }

  lemma ProbingGoesOn(b: Breaker, front: seq<Event>, last: Event, k: nat)
    requires ProbingSince(b, front, k) && (last.Allow? || last.Success?)
    requires Run(b, front).state == Run(b, front + [last]).state == HalfOpen
    requires Run(b, front + [last]).successes < Run(b, front + [last]).cfg.successThreshold
    ensures ProbingSince(b, front + [last], k)
  {
    hide Admits, Threshold, Run, Step, SuccessesReported;
    var es := front + [last];
    assert es[..k] == front[..k];
    assert es[k + 1..] == front[k + 1..] + [last];
    ReportedNext(front[k + 1..], last);
    ProbingCounts(b, front, last);
  }

  lemma ReportedNext(es: seq<Event>, last: Event)
    ensures SuccessesReported(es + [last]) == SuccessesReported(es) + (if last.Success? then 1 else 0)
  {
    assert (es + [last])[..|es|] == es;
  }

  lemma ProbingCounts(b: Breaker, front: seq<Event>, last: Event)
    requires (last.Allow? || last.Success?) && Run(b, front).state == Run(b, front + [last]).state == HalfOpen
    ensures Run(b, front + [last]).successes == Run(b, front).successes + (if last.Success? then 1 else 0)
  {
    hide Threshold;
    assert (front + [last])[..|front|] == front;
  }

  /** Whenever a breaker that did not start so is half-open, it is probing since some request. */
  lemma {:induction false} HalfOpenIsProbing(b: Breaker, es: seq<Event>)
    requires Normal(b.cfg) && Invariant(b) && b.state != HalfOpen && Run(b, es).state == HalfOpen
    ensures exists k: nat :: ProbingSince(b, es, k)
  {
    hide Invariant, ProbingSince, Threshold;
    var front, last := es[..|es| - 1], es[|es| - 1];
    assert es == front + [last];
    RunKeepsInvariant(b, es);
    HalfOpenSuccesses(Run(b, es));
    if Run(b, front).state == HalfOpen {
      HalfOpenIsProbing(b, front);
      var k: nat :| ProbingSince(b, front, k);
      ProbingGoesOn(b, front, last, k);
    } else {
      ProbingBegins(b, front, last);
    }
  }

  lemma ProbingBegins(b: Breaker, front: seq<Event>, last: Event)
    requires Run(b, front).state != HalfOpen && Run(b, front + [last]).state == HalfOpen
    requires Run(b, front + [last]).cfg.successThreshold > 0
    ensures ProbingSince(b, front + [last], |front|)
  {
    var es := front + [last];
    assert es[..|es| - 1] == front && es[|front| + 1..] == [];
  }

  lemma HalfOpenSuccesses(b: Breaker)
    requires Invariant(b) && b.state == HalfOpen
    ensures b.successes < b.cfg.successThreshold
  {
  }

  // ------------------------------------------------------ the half-open limit

  /** `k` requests in a row are let through at `now`, with no outcome reported between them. */
  ghost predicate AdmitsInARow(b: Breaker, now: int, k: nat) {
    forall i :: 0 <= i < k ==> Admits(Run(b, Repeat(Allow(now), i)), now)
  }

  /**
   What the configuration promises: a breaker that was open, and is half-open from the first of these requests on,
   lets at most `halfOpenMax` of them in before it hears of an outcome.
   */
  ghost predicate LimitsHalfOpen(c: Config) {
    forall es, now, k: nat :: Run(NewBreaker(c), es).state == Open && AdmitsInARow(Run(NewBreaker(c), es), now, k) ==>
      k <= c.halfOpenMax
  }

  lemma {:induction false} FailuresNeverHalfOpen(c: Config, n: nat)
    ensures var b := Run(NewBreaker(c), Repeat(Failure(0), n));
      b.state != HalfOpen && b.failures == n && b.lastFailure == 0 && b.cfg == c
  {
    hide Threshold;
    if n > 0 {
      FailuresNeverHalfOpen(c, n - 1);
      assert Repeat(Failure(0), n)[..n - 1] == Repeat(Failure(0), n - 1);
    }
  }

  /** One failure more than configured opens any breaker. */
  lemma FailuresOpen(c: Config)
    requires Normal(c)
    ensures var b := Run(NewBreaker(c), Repeat(Failure(0), c.failureThreshold + 1));
      b.state == Open && b.lastFailure == 0 && b.cfg == c
  {
    FailuresNeverHalfOpen(c, c.failureThreshold + 1);
    ClosedFailuresBounded(c, Repeat(Failure(0), c.failureThreshold + 1));
  }

  /** From the first request let through on, an open breaker that is due lets every further one through. */
  lemma {:induction false} DueAdmitsAny(b: Breaker, now: int, k: nat)
    requires b.state == Open && Admits(b, now)
    ensures Run(b, Repeat(Allow(now), k)) == if k == 0 then b else Step(b, Allow(now))
    ensures AdmitsInARow(b, now, k)
  {
    if k > 0 {
      DueAdmitsAny(b, now, k - 1);
      assert Repeat(Allow(now), k)[..k - 1] == Repeat(Allow(now), k - 1);
    } else {
      assert Repeat(Allow(now), 0) == [];
    }
  }

  /** The limit is never consulted: there is no configuration under which it holds. */
  lemma HalfOpenLimitNeverHolds(c: Config)
    requires Normal(c)
    ensures !LimitsHalfOpen(c)
  {
    var es := Repeat(Failure(0), c.failureThreshold + 1);
    var b := Run(NewBreaker(c), es);
    FailuresOpen(c);
    DueAdmitsAny(b, c.openDuration, c.halfOpenMax + 1);
    assert AdmitsInARow(Run(NewBreaker(c), es), c.openDuration, c.halfOpenMax + 1);
  }

  // ---------------------------------------------------------------- the ring

  /** The ring read once round from `idx`. */
  ghost function Rotation(ring: seq<bool>, idx: nat): seq<bool>
    requires idx <= |ring|
  {
    ring[idx..] + ring[..idx]
  }

  /** The ring, read from its index, is the end of the history. */
  ghost predicate RingHolds(ring: seq<bool>, idx: nat, pushed: nat, h: seq<bool>) {
    if ring == [] then idx == 0 && pushed == 0
    else if |h| < |ring| then pushed == idx == |h| && ring[..idx] == h
    else pushed == |ring| && idx < |ring| && Rotation(ring, idx) == LastN(h, |ring|)
  }

  function Advance(idx: nat, n: nat): (next: nat)
    requires idx < n
    ensures next == (idx + 1) % n
  {
    if idx + 1 == n then 0 else idx + 1
  }

  lemma OverwriteRotates(ring: seq<bool>, idx: nat, outcome: bool)
    requires idx < |ring|
    ensures Rotation(ring[idx := outcome], Advance(idx, |ring|)) == Rotation(ring, idx)[1..] + [outcome]
  {
    var later, earlier := ring[idx + 1..], ring[..idx];
    var ring' := ring[idx := outcome];
    assert ring'[idx + 1..] == later && ring'[..idx + 1] == earlier + [outcome];
    assert ring[idx..][1..] == later;
    assert Rotation(ring, idx)[1..] == later + earlier;
    if idx + 1 == |ring| {
      assert later == [] && Rotation(ring', 0) == ring' == ring'[..idx + 1];
    } else {
      assert Rotation(ring', idx + 1) == later + (earlier + [outcome]);
    }
  }

  lemma LastNShifts(h: seq<bool>, n: nat, outcome: bool)
    requires |h| >= n > 0
    ensures LastN(h + [outcome], n) == LastN(h, n)[1..] + [outcome]
  {
  }

  lemma PushKeepsRing(ring: seq<bool>, idx: nat, pushed: nat, h: seq<bool>, outcome: bool)
    requires ring != [] && RingHolds(ring, idx, pushed, h)
    ensures idx < |ring|
    ensures RingHolds(ring[idx := outcome], Advance(idx, |ring|), if pushed < |ring| then pushed + 1 else pushed, h + [outcome])
  {
    var ring' := ring[idx := outcome];
    if |h| >= |ring| {
      OverwriteRotates(ring, idx, outcome);
      LastNShifts(h, |ring|, outcome);
    } else if |h| + 1 == |ring| {
      assert ring' == h + [outcome] && Rotation(ring', 0) == ring';
    } else {
      assert ring'[..idx + 1] == ring[..idx] + [outcome];
    }
  }

  /** Counting over the filled part of the ring, in storage order, counts the window. */
  lemma RingCountsWindow(ring: seq<bool>, idx: nat, pushed: nat, h: seq<bool>)
    requires RingHolds(ring, idx, pushed, h) && ring != []
    ensures pushed <= |ring| && pushed == |LastN(h, |ring|)|
    ensures Failures(ring[..pushed]) == Failures(LastN(h, |ring|))
  {
    if |h| >= |ring| {
      FailuresConcat(ring[idx..], ring[..idx]);
      FailuresConcat(ring[..idx], ring[idx..]);
      assert Rotation(ring, idx) == LastN(h, |ring|);
      assert ring[..idx] + ring[idx..] == ring[..pushed];
    }
  }

  function Min(a: nat, b: nat): nat {
    if a > b then b else a
  }

  class CircuitBreaker {
    const config: Config
    var state: State
    var consecutiveFailures: nat
    var consecutiveSuccesses: nat
    var lastFailure: int
    var totalTrips: nat
    var totalSuccesses: nat
    var totalFailures: nat
    const recentOutcomes: array<bool>
    var outcomeIdx: nat
    var outcomesPushed: nat
    ghost var history: seq<bool>

    ghost predicate Valid()
      reads this, recentOutcomes
    {
      && Normal(config)
      && recentOutcomes.Length == (if config.windowSize > 0 then config.windowSize else 0)
      && RingHolds(recentOutcomes[..], outcomeIdx, outcomesPushed, history)
      && totalFailures == Failures(history)
      && totalSuccesses + totalFailures == |history|
    }

    ghost function View(): Breaker
      reads this
    {
      Breaker(config, state, consecutiveFailures, consecutiveSuccesses, lastFailure, totalTrips, history)
    }

    constructor (cfg: Config, halfMinute: int)
      requires halfMinute > 0
      ensures Valid() && View() == NewBreaker(Normalised(cfg, halfMinute)) && fresh(recentOutcomes)
    {
      config := Normalised(cfg, halfMinute);
      state, consecutiveFailures, consecutiveSuccesses, lastFailure := Closed, 0, 0, 0;
      totalTrips, totalSuccesses, totalFailures := 0, 0, 0;
      recentOutcomes := new bool[if cfg.windowSize > 0 then cfg.windowSize else 0](_ => false);
      outcomeIdx, outcomesPushed, history := 0, 0, [];
    }

    method WindowFailureRate() returns (rate: real)
      requires Valid()
      ensures rate == if config.windowSize > 0 then FailureRate(LastN(history, config.windowSize)) else 0.0
    {
      if recentOutcomes.Length == 0 || outcomesPushed == 0 {
        return 0.0;
      }
      RingCountsWindow(recentOutcomes[..], outcomeIdx, outcomesPushed, history);
      var n := Min(outcomesPushed, recentOutcomes.Length);
      var failures := 0;
      for i := 0 to n
        invariant failures == Failures(recentOutcomes[..i])
      {
        assert recentOutcomes[..i + 1][..i] == recentOutcomes[..i];
        if !recentOutcomes[i] {
          failures := failures + 1;
        }
      }
      assert recentOutcomes[..][..n] == recentOutcomes[..n];
      return failures as real / n as real;
    }

    method EffectiveFailureThreshold() returns (threshold: int)
      requires Valid()
      ensures threshold == Threshold(config, history)
    {
      var base := config.failureThreshold;
      if recentOutcomes.Length == 0 {
        return base;
      }
      var rate := WindowFailureRate();
      if rate > 0.5 {
        if base > 1 {
          return base - 1;
        }
        return 1;
      }
      if rate < 0.1 && base < 5 {
        return base + 1;
      }
      return base;
    }

    method PushOutcome(success: bool)
      requires Normal(config)
      requires recentOutcomes.Length == (if config.windowSize > 0 then config.windowSize else 0)
      requires RingHolds(recentOutcomes[..], outcomeIdx, outcomesPushed, history)
      modifies `outcomeIdx, `outcomesPushed, `history, recentOutcomes
      ensures history == old(history) + [success]
      ensures RingHolds(recentOutcomes[..], outcomeIdx, outcomesPushed, history)
    {
      hide *;
      if recentOutcomes.Length > 0 {
        PushKeepsRing(recentOutcomes[..], outcomeIdx, outcomesPushed, history, success);
        ghost var ring := recentOutcomes[..];
        recentOutcomes[outcomeIdx] := success;
        assert recentOutcomes[..] == ring[outcomeIdx := success];
        outcomeIdx := (outcomeIdx + 1) % recentOutcomes.Length;
        assert outcomeIdx == Advance(old(outcomeIdx), recentOutcomes.Length);
        if outcomesPushed < recentOutcomes.Length {
          outcomesPushed := outcomesPushed + 1;
        }
      }
      history := history + [success];
      NoRing(recentOutcomes[..], outcomeIdx, outcomesPushed, old(history), history);
    }

    static lemma NoRing(ring: seq<bool>, idx: nat, pushed: nat, h: seq<bool>, h': seq<bool>)
      ensures ring == [] ==> (RingHolds(ring, idx, pushed, h) <==> RingHolds(ring, idx, pushed, h'))
    {
    }

    method Allow(now: int) returns (allowed: bool)
      requires Valid()
      modifies this
      ensures Valid() && View() == Step(old(View()), Event.Allow(now))
      ensures allowed <==> Admits(old(View()), now)
    {
      match state
      case Closed =>
        return true;
      case Open =>
        if now - lastFailure >= config.openDuration {
          state := HalfOpen;
          consecutiveSuccesses := 0;
          return true;
        }
        return false;
      case HalfOpen =>
        return true;
    }

    method RecordSuccess()
      requires Valid()
      modifies this, recentOutcomes
      ensures Valid() && View() == Step(old(View()), Success)
    {
      hide RingHolds, Threshold, Failures;
      FailuresPush(history, true);
      totalSuccesses := totalSuccesses + 1;
      consecutiveFailures := 0;
      consecutiveSuccesses := consecutiveSuccesses + 1;
      PushOutcome(true);
      if state == HalfOpen {
        if consecutiveSuccesses >= config.successThreshold {
          state := Closed;
        }
      }
    }

    /** The threshold is that of the window before this failure. */
    method RecordFailure(now: int)
      requires Valid()
      modifies this, recentOutcomes
      ensures Valid() && View() == Step(old(View()), Failure(now))
    {
      hide RingHolds, Threshold, Failures;
      FailuresPush(history, false);
      var effThreshold := EffectiveFailureThreshold();
      totalFailures := totalFailures + 1;
      consecutiveFailures := consecutiveFailures + 1;
      consecutiveSuccesses := 0;
      lastFailure := now;
      PushOutcome(false);
      if state == Closed && consecutiveFailures >= effThreshold {
        state := Open;
        totalTrips := totalTrips + 1;
      } else if state == HalfOpen {
        state := Open;
        totalTrips := totalTrips + 1;
      }
    }

    method Reset()
      requires Valid()
      modifies this
      ensures Valid() && View() == Step(old(View()), Event.Reset)
    {
      if state != Closed {
        state := Closed;
      }
      consecutiveFailures := 0;
      consecutiveSuccesses := 0;
    }

    /** What State reports: an open breaker whose time has come already shows as half-open. */
    method CurrentState(now: int) returns (s: State)
      requires Valid()
      ensures s == Step(View(), Event.Allow(now)).state
    {
      if state == Open && now - lastFailure >= config.openDuration {
        return HalfOpen;
      }
      return state;
    }
  }
}
