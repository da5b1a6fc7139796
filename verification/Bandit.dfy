/**
 The decaying contextual bandit of pkg/uiauto/bandits. Numbers are exact; a Thompson sample is any value in
 [0, 1]; rewards may be any number. Arms are numbered 0 (light), 1 (smart) and 2 (VLM).
 */
module Bandits {

  type Arm = a: nat | a < 3 witness 0

  datatype Config = Config(
    initialAlpha: real,
    initialBeta: real,
    warmupRounds: int,
    costWeight: real,
    decayFactor: real
  )

  /** A decay factor of one or more means no decay. */
  function Decay(c: Config): real {
    if c.decayFactor < 1.0 then c.decayFactor else 1.0
  }

  function CostPerCall(a: Arm): real {
    if a == 0 then 0.0 else if a == 1 then 1.0 else 5.0
  }

  datatype Posterior = Posterior(alpha: real, beta: real, trials: nat)

  function Mean(p: Posterior): real
    requires p.alpha + p.beta > 0.0
  {
    p.alpha / (p.alpha + p.beta)
  }

  datatype Posteriors = Posteriors(light: Posterior, smart: Posterior, vlm: Posterior) {
    function At(a: Arm): Posterior {
      if a == 0 then light else if a == 1 then smart else vlm
    }

    function With(a: Arm, p: Posterior): Posteriors {
      if a == 0 then this.(light := p) else if a == 1 then this.(smart := p) else this.(vlm := p)
    }

    function Trials(): nat {
      light.trials + smart.trials + vlm.trials
    }
  }

  datatype Features = Features(
    pageComplexity: real,
    previousFailures: int,
    mutationIntensity: real,
    hasDataTestID: bool
  )

  function ContextKey(f: Features): string {
    var complexity := if f.pageComplexity > 0.6 then "high" else if f.pageComplexity > 0.3 then "mid" else "low";
    complexity + ":" + (if IsUnstable(f) then "unstable" else "stable")
  }

  predicate IsUnstable(f: Features) {
    f.mutationIntensity > 0.2 || f.previousFailures > 1 || !f.hasDataTestID
  }

  // ------------------------------------------------------------- one context

  function Prior(c: Config): Posterior {
    Posterior(c.initialAlpha, c.initialBeta, 0)
  }

  function Initial(c: Config): Posteriors {
    Posteriors(Prior(c), Prior(c), Prior(c))
  }

  function Scaled(x: real, d: real): real {
    x * d
  }

  function Decayed(c: Config, p: Posterior): Posterior {
    if c.decayFactor < 1.0
    then p.(alpha := c.initialAlpha + Scaled(p.alpha - c.initialAlpha, c.decayFactor),
            beta := c.initialBeta + Scaled(p.beta - c.initialBeta, c.decayFactor))
    else p
  }

  function Observed(p: Posterior, reward: real): Posterior {
    Posterior(p.alpha + reward, p.beta + (1.0 - reward), p.trials + 1)
  }

  function DecayedAll(c: Config, ps: Posteriors): Posteriors {
    Posteriors(Decayed(c, ps.light), Decayed(c, ps.smart), Decayed(c, ps.vlm))
  }

  function Updated(c: Config, ps: Posteriors, a: Arm, reward: real): Posteriors {
    var d := DecayedAll(c, ps);
    d.With(a, Observed(d.At(a), reward))
  }

  /** How far a posterior is above its prior. */
  function Excess(c: Config, p: Posterior): real {
    (p.alpha - c.initialAlpha) + (p.beta - c.initialBeta)
  }

  function TotalExcess(c: Config, ps: Posteriors): real {
    Excess(c, ps.light) + Excess(c, ps.smart) + Excess(c, ps.vlm)
  }

  /** 1 + d + d^2 + ... with `n` terms: the weight `n` decayed observations add up to. */
  function DecayedWeight(d: real, n: nat): real {
    if n == 0 then 0.0 else d * DecayedWeight(d, n - 1) + 1.0
  }

  /** An arm weighs no less than its priors, and no more than its trials can have added. */
  predicate IsWeighed(c: Config, p: Posterior) {
    0.0 <= Excess(c, p) <= p.trials as real
  }

  predicate AllWeighed(c: Config, ps: Posteriors) {
    IsWeighed(c, ps.light) && IsWeighed(c, ps.smart) && IsWeighed(c, ps.vlm)
  }

  /** Each arm is weighed, and all together have exactly the decayed weight of the observations. */
  predicate WeightExact(c: Config, ps: Posteriors) {
    AllWeighed(c, ps) && TotalExcess(c, ps) == DecayedWeight(Decay(c), ps.Trials())
  }

  /** Neither parameter is below its prior. */
  predicate AtPrior(c: Config, p: Posterior) {
    p.alpha >= c.initialAlpha && p.beta >= c.initialBeta
  }

  predicate AllAtPriors(c: Config, ps: Posteriors) {
    AtPrior(c, ps.light) && AtPrior(c, ps.smart) && AtPrior(c, ps.vlm)
  }

  lemma DecayShrinks(c: Config, p: Posterior)
    requires c.decayFactor >= 0.0 && IsWeighed(c, p)
    ensures IsWeighed(c, Decayed(c, p)) && Decayed(c, p).trials == p.trials
    ensures Excess(c, Decayed(c, p)) == Scaled(Excess(c, p), Decay(c))
    ensures AtPrior(c, p) ==> AtPrior(c, Decayed(c, p))
  {
    hide Scaled;
    if c.decayFactor < 1.0 {
      TwoTerms(p.alpha - c.initialAlpha, p.beta - c.initialBeta, c.decayFactor);
      Shrinks(Excess(c, p), c.decayFactor);
      if AtPrior(c, p) {
        Shrinks(p.alpha - c.initialAlpha, c.decayFactor);
        Shrinks(p.beta - c.initialBeta, c.decayFactor);
      }
    } else {
      ScaledByOne(Excess(c, p));
    }
  }

  lemma TwoTerms(x: real, y: real, d: real)
    ensures Scaled(x, d) + Scaled(y, d) == Scaled(x + y, d)
  {
  }

  lemma ScaledByOne(x: real)
    ensures Scaled(x, 1.0) == x
  {
  }

  lemma Shrinks(x: real, d: real)
    requires x >= 0.0 && 0.0 <= d < 1.0
    ensures 0.0 <= Scaled(x, d) <= x
  {
    ProductNotNegative(x, d);
    ProductNotNegative(x, 1.0 - d);
  }

  lemma ProductNotNegative(x: real, y: real)
    requires x >= 0.0 && y >= 0.0
    ensures x * y >= 0.0
  {
  }

  lemma DecayShrinksAll(c: Config, ps: Posteriors)
    requires c.decayFactor >= 0.0 && AllWeighed(c, ps)
    ensures AllWeighed(c, DecayedAll(c, ps))
    ensures AllAtPriors(c, ps) ==> AllAtPriors(c, DecayedAll(c, ps))
    ensures TotalExcess(c, DecayedAll(c, ps)) == Decay(c) * TotalExcess(c, ps)
  {
    hide Decayed, Decay, Excess, IsWeighed, AtPrior, Scaled;
    DecayShrinks(c, ps.light);
    DecayShrinks(c, ps.smart);
    DecayShrinks(c, ps.vlm);
    ThreeTerms(Excess(c, ps.light), Excess(c, ps.smart), Excess(c, ps.vlm), Decay(c));
  }

  lemma ThreeTerms(x: real, y: real, z: real, d: real)
    ensures Scaled(x, d) + Scaled(y, d) + Scaled(z, d) == d * (x + y + z)
  {
  }

  /** An observation adds one to the total excess, whatever the reward. */
  lemma ObservationAddsOne(c: Config, ps: Posteriors, a: Arm, reward: real)
    requires AllWeighed(c, ps)
    ensures var qs := ps.With(a, Observed(ps.At(a), reward));
            && AllWeighed(c, qs)
            && TotalExcess(c, qs) == TotalExcess(c, ps) + 1.0
            && (0.0 <= reward <= 1.0 && AllAtPriors(c, ps) ==> AllAtPriors(c, qs))
  {
  }

  /** Every update counts one trial, of the arm it is about. */
  lemma UpdateCountsTrial(c: Config, ps: Posteriors, a: Arm, reward: real)
    ensures Updated(c, ps, a, reward).Trials() == ps.Trials() + 1
    ensures forall b: Arm :: Updated(c, ps, a, reward).At(b).trials == ps.At(b).trials + (if b == a then 1 else 0)
  {
  }

  /** The weight stays exact whatever the reward; a reward in [0, 1] leaves no parameter below its prior. */
  lemma UpdateKeepsExact(c: Config, ps: Posteriors, a: Arm, reward: real)
    requires c.decayFactor >= 0.0 && WeightExact(c, ps)
    ensures WeightExact(c, Updated(c, ps, a, reward))
    ensures 0.0 <= reward <= 1.0 && AllAtPriors(c, ps) ==> AllAtPriors(c, Updated(c, ps, a, reward))
  {
    hide DecayedAll, Decay, TotalExcess, AllWeighed, AllAtPriors, Observed, Posteriors.With, Posteriors.Trials;
    UpdateCountsTrial(c, ps, a, reward);
    DecayShrinksAll(c, ps);
    ObservationAddsOne(c, DecayedAll(c, ps), a, reward);
  }

  /** A reward leaves every arm that is at its priors there exactly if it is in [0, 1]. */
  lemma RewardKeepsPriorExactly(c: Config, reward: real)
    ensures (forall p :: AtPrior(c, p) ==> AtPrior(c, Observed(p, reward))) <==> 0.0 <= reward <= 1.0
  {
    assert AtPrior(c, Prior(c));
    assert AtPrior(c, Observed(Prior(c), reward)) <==> 0.0 <= reward <= 1.0;
  }

  lemma {:induction false} DecayedWeightBounds(d: real, n: nat)
    requires 0.0 <= d <= 1.0
    ensures 0.0 <= DecayedWeight(d, n) <= n as real
    ensures d == 1.0 ==> DecayedWeight(d, n) == n as real
    ensures DecayedWeight(d, n) * (1.0 - d) <= 1.0
  {
    if n > 0 {
      DecayedWeightBounds(d, n - 1);
      var w := DecayedWeight(d, n - 1);
      assert 0.0 <= d * w <= w;
      assert (d * w + 1.0) * (1.0 - d) == d * (w * (1.0 - d)) + (1.0 - d);
      assert d * (w * (1.0 - d)) <= d * 1.0;
    }
  }

  /** The excess of every arm stays within its trials and, under decay, within 1 / (1 - decay). */
  lemma ExcessBounded(c: Config, ps: Posteriors, a: Arm)
    requires c.decayFactor >= 0.0 && WeightExact(c, ps)
    ensures 0.0 <= Excess(c, ps.At(a)) <= TotalExcess(c, ps)
    ensures Excess(c, ps.At(a)) <= ps.At(a).trials as real
    ensures c.decayFactor < 1.0 ==> Excess(c, ps.At(a)) <= 1.0 / (1.0 - c.decayFactor)
    ensures c.decayFactor >= 1.0 ==> TotalExcess(c, ps) == ps.Trials() as real
  {
    hide DecayedWeight;
    DecayedWeightBounds(Decay(c), ps.Trials());
    if c.decayFactor < 1.0 {
      QuotientBound(TotalExcess(c, ps), 1.0 - c.decayFactor);
    }
  }

  lemma QuotientBound(x: real, y: real)
    requires y > 0.0 && x * y <= 1.0
    ensures x <= 1.0 / y
  {
    var q := 1.0 / y;
    assert q * y == 1.0;
    if x > q {
      assert x * y > q * y;
    }
  }

  // ------------------------------------------------------------- one context's run

  datatype Pull = Pull(arm: Arm, reward: real)

  /** What a context knows after these pulls. */
  function AfterPulls(c: Config, pulls: seq<Pull>): Posteriors {
    if pulls == [] then Initial(c)
    else
      var last := pulls[|pulls| - 1];
      Updated(c, AfterPulls(c, pulls[..|pulls| - 1]), last.arm, last.reward)
  }

  function Power(d: real, n: nat): real {
    if n == 0 then 1.0 else Scaled(Power(d, n - 1), d)
  }

  /** What a pull is worth to an arm: its reward, or what the reward falls short of one, if it was that arm's. */
  function Worth(p: Pull, a: Arm, won: bool): real {
    if p.arm != a then 0.0 else if won then p.reward else 1.0 - p.reward
  }

  /** The worth of all pulls, each decayed once for every pull after it. */
  function DecayedWorth(pulls: seq<Pull>, a: Arm, won: bool, d: real): real {
    if pulls == [] then 0.0
    else Scaled(Worth(pulls[0], a, won), Power(d, |pulls| - 1)) + DecayedWorth(pulls[1..], a, won, d)
  }

  lemma ScaledTwice(x: real, p: real, d: real)
    ensures Scaled(x, Scaled(p, d)) == Scaled(Scaled(x, p), d)
  {
  }

  lemma {:induction false} OnePullMore(pulls: seq<Pull>, p: Pull, a: Arm, won: bool, d: real)
    ensures DecayedWorth(pulls + [p], a, won, d) == Scaled(DecayedWorth(pulls, a, won, d), d) + Worth(p, a, won)
  {
    if pulls == [] {
      assert pulls + [p] == [p];
    } else {
      var first, rest := Worth(pulls[0], a, won), pulls[1..];
      assert (pulls + [p])[1..] == rest + [p];
      OnePullMore(rest, p, a, won, d);
      ScaledTwice(first, Power(d, |rest|), d);
      TwoTerms(Scaled(first, Power(d, |rest|)), DecayedWorth(rest, a, won, d), d);
    }
  }

  /** Decay acts on each parameter's distance from its prior. */
  lemma DecayedParameters(c: Config, p: Posterior)
    ensures Decayed(c, p).alpha - c.initialAlpha == Scaled(p.alpha - c.initialAlpha, Decay(c))
    ensures Decayed(c, p).beta - c.initialBeta == Scaled(p.beta - c.initialBeta, Decay(c))
  {
  }

  /** After any pulls an arm's alpha exceeds its prior by the decayed rewards of its own pulls, and beta by the decayed rest. */
  lemma {:induction false} ParametersAreDecayedWorth(c: Config, pulls: seq<Pull>, a: Arm)
    ensures AfterPulls(c, pulls).At(a).alpha - c.initialAlpha == DecayedWorth(pulls, a, true, Decay(c))
    ensures AfterPulls(c, pulls).At(a).beta - c.initialBeta == DecayedWorth(pulls, a, false, Decay(c))
  {
    if pulls != [] {
      var front, last := pulls[..|pulls| - 1], pulls[|pulls| - 1];
      assert pulls == front + [last];
      ParametersAreDecayedWorth(c, front, a);
      OnePullMore(front, last, a, true, Decay(c));
      OnePullMore(front, last, a, false, Decay(c));
      DecayedParameters(c, AfterPulls(c, front).At(a));
    }
  }

  /** A larger reward leaves the arm with a larger mean. */
  lemma MeanFollowsReward(c: Config, ps: Posteriors, a: Arm, less: real, more: real)
    requires less < more
    requires var p := Updated(c, ps, a, less).At(a); p.alpha + p.beta > 0.0
    ensures var q := Updated(c, ps, a, more).At(a); q.alpha + q.beta > 0.0
    ensures Mean(Updated(c, ps, a, less).At(a)) < Mean(Updated(c, ps, a, more).At(a))
  {
    hide Decayed;
    var p, q := Updated(c, ps, a, less).At(a), Updated(c, ps, a, more).At(a);
    assert q.alpha + q.beta == p.alpha + p.beta;
    QuotientGrows(p.alpha, q.alpha, p.alpha + p.beta);
  }

  lemma QuotientGrows(x: real, y: real, d: real)
    requires x < y && d > 0.0
    ensures x / d < y / d
  {
    assert x / d * d == x && y / d * d == y;
  }

  // ------------------------------------------------------------------ warmup

  /** The first arm with too few trials. */
  function ColdArm(c: Config, ps: Posteriors): (a: int)
    ensures a < 3
  {
    if ps.light.trials < c.warmupRounds then 0
    else if ps.smart.trials < c.warmupRounds then 1
    else if ps.vlm.trials < c.warmupRounds then 2
    else -1
  }

  function Clamp(x: int, hi: nat): nat {
    if x < 0 then 0 else if x > hi then hi else x
  }

  /** One context played alone: every selection of the warmup is followed by its update. */
  function Played(c: Config, rewards: seq<real>): Posteriors {
    if rewards == [] then Initial(c)
    else
      var ps := Played(c, rewards[..|rewards| - 1]);
      var a := ColdArm(c, ps);
      if a >= 0 then Updated(c, ps, a, rewards[|rewards| - 1]) else ps
  }

  lemma {:induction false} WarmupTrials(c: Config, rewards: seq<real>)
    requires c.warmupRounds >= 0 && |rewards| <= 3 * c.warmupRounds
    ensures var n, w := |rewards|, c.warmupRounds;
            var ps := Played(c, rewards);
            ps.light.trials == Clamp(n, w) && ps.smart.trials == Clamp(n - w, w) && ps.vlm.trials == Clamp(n - 2 * w, w)
  {
    if rewards != [] {
      var front := rewards[..|rewards| - 1];
      WarmupTrials(c, front);
      var a := ColdArm(c, Played(c, front));
      assert 0 <= a < 3;
    }
  }

  /** The first picks are `warmupRounds` times light, then as many times smart, then as many times VLM. */
  lemma WarmupOrder(c: Config, rewards: seq<real>)
    requires |rewards| < 3 * c.warmupRounds
    ensures ColdArm(c, Played(c, rewards))
            == if |rewards| < c.warmupRounds then 0 else if |rewards| < 2 * c.warmupRounds then 1 else 2
  {
    WarmupTrials(c, rewards);
  }

  /** After that no arm is cold any more. */
  lemma WarmupEnds(c: Config, rewards: seq<real>)
    requires c.warmupRounds >= 0 && |rewards| == 3 * c.warmupRounds
    ensures ColdArm(c, Played(c, rewards)) < 0
  {
    WarmupTrials(c, rewards);
  }

  /** What the configuration's comment says: the warmup takes the arms in turn. */
  ghost predicate WarmupAlternates(c: Config) {
    forall rewards :: |rewards| < 3 * c.warmupRounds ==> ColdArm(c, Played(c, rewards)) == |rewards| % 3
  }

  /** It does so exactly if it is one round long. */
  lemma WarmupAlternatesExactly(c: Config)
    ensures WarmupAlternates(c) <==> c.warmupRounds <= 1
  {
    if c.warmupRounds <= 1 {
      forall rewards | |rewards| < 3 * c.warmupRounds ensures ColdArm(c, Played(c, rewards)) == |rewards| % 3 {
        WarmupOrder(c, rewards);
      }
    } else {
      WarmupOrder(c, [0.5]);
      assert ColdArm(c, Played(c, [0.5])) != |[0.5]| % 3;
    }
  }

  // ---------------------------------------------------------------- selection

  /** The first arm whose score is not exceeded by any other. */
  ghost predicate FirstBest(scores: seq<real>, a: nat) {
    && a < |scores|
    && (forall i :: 0 <= i < |scores| ==> scores[i] <= scores[a])
    && forall i :: 0 <= i < a ==> scores[i] < scores[a]
  }

  method BestOf(scores: seq<real>) returns (a: nat)
    requires scores != []
    ensures FirstBest(scores, a)
  {
    a := 0;
    for i := 1 to |scores|
      invariant a < i
      invariant forall j :: 0 <= j < i ==> scores[j] <= scores[a]
      invariant forall j :: 0 <= j < a ==> scores[j] < scores[a]
    {
      if scores[i] > scores[a] {
        a := i;
      }
    }
  }

  function Penalty(c: Config, a: Arm): real {
    c.costWeight * CostPerCall(a) / 5.0
  }

  /** The cost weight is charged in full for the VLM, at a fifth for smart, and not for light. */
  lemma PenaltyExactly(c: Config)
    ensures Penalty(c, 0) == 0.0 && 5.0 * Penalty(c, 1) == c.costWeight && Penalty(c, 2) == c.costWeight
  {
  }

  /** Two situations share a context exactly if they agree on the complexity band and on being unstable. */
  lemma ContextsExactly(f: Features, g: Features)
    ensures ContextKey(f) == ContextKey(g) <==>
              && (f.pageComplexity > 0.3 <==> g.pageComplexity > 0.3)
              && (f.pageComplexity > 0.6 <==> g.pageComplexity > 0.6)
              && (IsUnstable(f) <==> IsUnstable(g))
  {
    forall h: Features ensures var key := ContextKey(h);
        && (key[0] == 'h' <==> h.pageComplexity > 0.6) && (key[0] == 'l' <==> h.pageComplexity <= 0.3)
        && (key[|key| - 8] == 'u' <==> IsUnstable(h)) {
    }
  }

  // ----------------------------------------------------------------- contexts

  ghost function TrialsOf(m: map<string, Posteriors>): nat
    decreases |m|
  {
    if m == map[] then 0
    else
      var k :| k in m;
      m[k].Trials() + TrialsOf(m - {k})
  }

  lemma {:induction false} TrialsOfPick(m: map<string, Posteriors>, k: string)
    requires k in m
    ensures TrialsOf(m) == m[k].Trials() + TrialsOf(m - {k})
    decreases |m|
  {
    var j :| j in m && TrialsOf(m) == m[j].Trials() + TrialsOf(m - {j});
    if j != k {
      TrialsOfPick(m - {j}, k);
      TrialsOfPick(m - {k}, j);
      assert m - {j} - {k} == m - {k} - {j};
    }
  }

  lemma TrialsAfterUpdate(m: map<string, Posteriors>, k: string, ps: Posteriors)
    ensures TrialsOf(m[k := ps]) == TrialsOf(m) - (if k in m then m[k].Trials() else 0) + ps.Trials()
  {
    TrialsOfPick(m[k := ps], k);
    if k in m {
      TrialsOfPick(m, k);
      assert m[k := ps] - {k} == m - {k};
    } else {
      assert m[k := ps] - {k} == m;
    }
  }

  class ContextualBandit {
    const cfg: Config
    var posteriors: map<string, Posteriors>
    var totalPulls: int
    ghost var proper: bool  // all rewards so far were in [0, 1]

    /** A negative decay factor flips signs; under any other the weights are exact. */
    ghost predicate Valid()
      reads this
    {
      && totalPulls == TrialsOf(posteriors)
      && (cfg.decayFactor >= 0.0 ==> forall k :: k in posteriors ==> WeightExact(cfg, posteriors[k]))
      && (cfg.decayFactor >= 0.0 && proper ==> forall k :: k in posteriors ==> AllAtPriors(cfg, posteriors[k]))
    }

    constructor (cfg: Config)
      ensures Valid() && this.cfg == cfg && posteriors == map[] && totalPulls == 0 && proper
    {
      this.cfg := cfg;
      posteriors, totalPulls, proper := map[], 0, true;
    }

    function Known(key: string): Posteriors
      reads this
    {
      if key in posteriors then posteriors[key] else Initial(cfg)
    }

    /** During warmup the first cold arm; afterwards the first arm with the best sample net of cost. */
    method SelectArm(features: Features, samples: seq<real>) returns (arm: Arm)
      requires Valid() && |samples| == 3 && forall i :: 0 <= i < 3 ==> 0.0 <= samples[i] <= 1.0
      modifies `posteriors
      ensures Valid() && posteriors == old(posteriors)[ContextKey(features) := old(Known(ContextKey(features)))]
      ensures var cold := ColdArm(cfg, old(Known(ContextKey(features))));
              if cold >= 0 then arm == cold
              else FirstBest([samples[0] - Penalty(cfg, 0), samples[1] - Penalty(cfg, 1), samples[2] - Penalty(cfg, 2)], arm)
    {
      var key := ContextKey(features);
      var posts := Known(key);
      hide WeightExact, AllAtPriors, Initial, ContextKey, FirstBest;
      InitialIsExact(cfg);
      TrialsAfterUpdate(posteriors, key, posts);
      posteriors := posteriors[key := posts];
      for i := 0 to 3
        invariant i > 0 ==> posts.light.trials >= cfg.warmupRounds
        invariant i > 1 ==> posts.smart.trials >= cfg.warmupRounds
        invariant i > 2 ==> posts.vlm.trials >= cfg.warmupRounds
      {
        if posts.At(i).trials < cfg.warmupRounds {
          return i;
        }
      }
      arm := BestOf([samples[0] - Penalty(cfg, 0), samples[1] - Penalty(cfg, 1), samples[2] - Penalty(cfg, 2)]);
    }

    /** Decays what the context knows, then adds the observation; the pull counter is the number of all trials. */
    method Update(features: Features, arm: Arm, reward: real)
      requires Valid()
      modifies this
      ensures Valid() && totalPulls == old(totalPulls) + 1
      ensures proper <==> old(proper) && 0.0 <= reward <= 1.0
      ensures posteriors == old(posteriors)[ContextKey(features) :=
                              Updated(cfg, old(Known(ContextKey(features))), arm, reward)]
    {
      hide WeightExact, AllAtPriors, Updated, Initial, ContextKey;
      var key := ContextKey(features);
      var posts := Known(key);
      InitialIsExact(cfg);
      UpdateCountsTrial(cfg, posts, arm, reward);
      if cfg.decayFactor >= 0.0 {
        UpdateKeepsExact(cfg, posts, arm, reward);
      }
      var next := Updated(cfg, posts, arm, reward);
      TrialsAfterUpdate(posteriors, key, next);
      posteriors := posteriors[key := next];
      totalPulls := totalPulls + 1;
      proper := proper && 0.0 <= reward <= 1.0;
    }

    static lemma InitialIsExact(c: Config)
      ensures WeightExact(c, Initial(c)) && AllAtPriors(c, Initial(c)) && Initial(c).Trials() == 0
    {
    }

    method TotalPulls() returns (n: int)
      requires Valid()
      ensures n == TrialsOf(posteriors)
    {
      n := totalPulls;
    }

    /** The first arm with the best mean net of cost, light for a context never seen. */
    method BestArm(features: Features) returns (arm: Arm)
      requires Valid() && cfg.decayFactor >= 0.0 && cfg.initialAlpha + cfg.initialBeta > 0.0
      ensures ContextKey(features) !in posteriors ==> arm == 0
      ensures ContextKey(features) in posteriors ==>
                var ps := posteriors[ContextKey(features)];
                && (forall a: Arm :: ps.At(a).alpha + ps.At(a).beta > 0.0)
                && FirstBest([Mean(ps.At(0)) - Penalty(cfg, 0), Mean(ps.At(1)) - Penalty(cfg, 1),
                              Mean(ps.At(2)) - Penalty(cfg, 2)], arm)
    {
      var key := ContextKey(features);
      if key !in posteriors {
        return 0;
      }
      var ps := posteriors[key];
      forall a: Arm ensures ps.At(a).alpha + ps.At(a).beta > 0.0 {
        assert AllWeighed(cfg, ps);
      }
      arm := BestOf([Mean(ps.At(0)) - Penalty(cfg, 0), Mean(ps.At(1)) - Penalty(cfg, 1), Mean(ps.At(2)) - Penalty(cfg, 2)]);
    }

    method Reset()
      requires Valid()
      modifies this
      ensures Valid() && posteriors == map[] && totalPulls == 0 && proper
    {
      posteriors, totalPulls, proper := map[], 0, true;
    }
  }
}
