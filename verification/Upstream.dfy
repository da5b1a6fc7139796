/**
 Weighted selection and health marks of pkg/llm/upstream_pool.go. A random draw is any number in its range;
 a health probe is an outcome. The candidates of a selection are the healthy nodes of a tier, in the order of the
 pool, and a draw falls into the weight interval of one of them; a node's health follows from its failures in a row
 and from the successes that clear them.
 */
module UpstreamPooling {
  import opened Collections
  import opened Wrappers

  // ----------------------------------------------------- weighted intervals

  /** The total weight of the first `n` candidates: where the interval of the next one starts. */
  function Prefix(weights: seq<int>, n: nat): int
    requires n <= |weights|
  {
    if n == 0 then 0 else Prefix(weights, n - 1) + weights[n - 1]
  }

  ghost predicate AllPositive(weights: seq<int>) {
    forall i :: 0 <= i < |weights| ==> weights[i] >= 1
  }

  ghost predicate DrawPicks(weights: seq<int>, draw: int, i: nat) {
    i < |weights| && Prefix(weights, i) <= draw < Prefix(weights, i + 1)
  }

  lemma {:induction false} PrefixIncreases(weights: seq<int>, m: nat, n: nat)
    requires AllPositive(weights) && m <= n <= |weights|
    ensures Prefix(weights, n) - Prefix(weights, m) >= n - m
  {
    if m < n {
      PrefixIncreases(weights, m, n - 1);
    }
  }

  /** A draw picks one candidate at most. */
  lemma DrawPicksOne(weights: seq<int>, draw: int, i: nat, j: nat)
    requires AllPositive(weights) && DrawPicks(weights, draw, i) && DrawPicks(weights, draw, j)
    ensures i == j
  {
    if i < j {
      PrefixIncreases(weights, i + 1, j);
    } else if j < i {
      PrefixIncreases(weights, j + 1, i);
    }
  }

  ghost function DrawsOf(weights: seq<int>, i: nat): set<int>
    requires i < |weights|
  {
    set r | 0 <= r < Prefix(weights, |weights|) && DrawPicks(weights, r, i)
  }

  function Range(lo: int, n: nat): set<int> {
    if n == 0 then {} else Range(lo, n - 1) + {lo + n - 1}
  }

  lemma {:induction false} RangeHolds(lo: int, n: nat)
    ensures |Range(lo, n)| == n
    ensures forall x :: x in Range(lo, n) <==> lo <= x < lo + n
  {
    if n > 0 {
      RangeHolds(lo, n - 1);
    }
  }

  /** Exactly as many of the possible draws pick a candidate as its weight says. */
  lemma DrawsProportionalToWeight(weights: seq<int>, i: nat)
    requires AllPositive(weights) && i < |weights|
    ensures |DrawsOf(weights, i)| == weights[i]
  {
    PrefixIncreases(weights, 0, i);
    PrefixIncreases(weights, i + 1, |weights|);
    RangeHolds(Prefix(weights, i), weights[i]);
    assert DrawsOf(weights, i) == Range(Prefix(weights, i), weights[i]);
  }

  /** The selection loop. The fallback after the loop is never reached for a draw below the total. */
  method Pick(weights: seq<int>, draw: int) returns (picked: nat)
    requires AllPositive(weights) && 0 <= draw < Prefix(weights, |weights|)
    ensures DrawPicks(weights, draw, picked)
  {
    var r := draw;
    for i := 0 to |weights|
      invariant r == draw - Prefix(weights, i) && r >= 0
    {
      r := r - weights[i];
      if r < 0 {
        return i;
      }
    }
    assert false;
  }

  // ------------------------------------------------------------ health marks

  /** How many failures in a row end the outcomes; a pool takes over the count its nodes come with. */
  function FailCount(carried: int, outcomes: seq<bool>): int {
    if outcomes == [] then carried
    else if outcomes[|outcomes| - 1] then 0
    else FailCount(carried, outcomes[..|outcomes| - 1]) + 1
  }

  /** The thresholds of the health check. */
  datatype HealthCheck = HealthCheck(unhealthyThreshold: int, healthyThreshold: int)

  /** Whether a node is healthy after these marks and probes: it starts so, and one success makes it so. */
  predicate HealthyAfter(cfg: HealthCheck, carried: int, outcomes: seq<bool>) {
    outcomes == [] || outcomes[|outcomes| - 1] || FailCount(carried, outcomes) < cfg.unhealthyThreshold
  }

  class UpstreamNode {
    const name: string
    const tier: string
    var weight: int
    var healthy: bool
    var failCount: int
    ghost var carried: int         // the failure count when the pool was built
    ghost var outcomes: seq<bool>  // every mark and probe since then

    constructor (name: string, tier: string, weight: int)
      ensures this.name == name && this.tier == tier && this.weight == weight
    {
      this.name, this.tier, this.weight := name, tier, weight;
      healthy, failCount, carried, outcomes := false, 0, 0, [];
    }

    ghost predicate HealthExact(cfg: HealthCheck)
      reads this
    {
      && failCount == FailCount(carried, outcomes)
      && (healthy <==> HealthyAfter(cfg, carried, outcomes))
    }

    /** The book-keeping shared by marks and probes. */
    method Note(ok: bool, cfg: HealthCheck)
      requires HealthExact(cfg)
      modifies `healthy, `failCount, `outcomes
      ensures HealthExact(cfg) && outcomes == old(outcomes) + [ok]
      ensures failCount == if ok then 0 else old(failCount) + 1
      ensures healthy <==> ok || (old(healthy) && failCount < cfg.unhealthyThreshold)
    {
      assert (outcomes + [ok])[..|outcomes|] == outcomes;
      outcomes := outcomes + [ok];
      if ok {
        healthy := true;
        failCount := 0;
      } else {
        failCount := failCount + 1;
        if failCount >= cfg.unhealthyThreshold {
          healthy := false;
        }
      }
    }
  }

  // ---------------------------------------------------------------- recovery

  /** A run of outcomes after which a node is healthy again, having been unhealthy just before. */
  predicate Recovers(cfg: HealthCheck, carried: int, outcomes: seq<bool>) {
    && outcomes != []
    && !HealthyAfter(cfg, carried, outcomes[..|outcomes| - 1]) && HealthyAfter(cfg, carried, outcomes)
  }

  ghost predicate EndsInSuccesses(outcomes: seq<bool>, n: int) {
    n <= |outcomes| && forall i :: 0 <= i < |outcomes| && i >= |outcomes| - n ==> outcomes[i]
  }

  lemma {:induction false} FailuresCount(carried: int, n: nat)
    ensures FailCount(carried, Repeat(false, n)) == carried + n
  {
    if n > 0 {
      FailuresCount(carried, n - 1);
      assert Repeat(false, n)[..n - 1] == Repeat(false, n - 1);
    }
  }

  /** A recovery takes one success and no more, so the healthy threshold is kept in every run exactly if it is at most one. */
  lemma HealthyThresholdKeptExactly(cfg: HealthCheck, carried: nat)
    ensures (forall outcomes :: Recovers(cfg, carried, outcomes) ==> EndsInSuccesses(outcomes, cfg.healthyThreshold))
            <==> cfg.healthyThreshold <= 1
  {
    if cfg.healthyThreshold <= 1 {
      forall outcomes | Recovers(cfg, carried, outcomes) ensures EndsInSuccesses(outcomes, cfg.healthyThreshold) {
        RecoveryEndsInSuccess(cfg, carried, outcomes);
      }
    } else {
      var n := if cfg.unhealthyThreshold >= 1 then cfg.unhealthyThreshold else 1;
      var outcomes := Repeat(false, n) + [true];
      FailuresCount(carried, n);
      assert outcomes[..n] == Repeat(false, n);
      assert Recovers(cfg, carried, outcomes);
      assert !outcomes[n - 1];
    }
  }

  lemma RecoveryEndsInSuccess(cfg: HealthCheck, carried: int, outcomes: seq<bool>)
    requires Recovers(cfg, carried, outcomes)
    ensures outcomes[|outcomes| - 1]
  {
  }

  /** The healthy nodes, of one tier if a tier is asked for, in pool order. */
  ghost function Candidates(nodes: seq<UpstreamNode>, tier: Option<string>): seq<UpstreamNode>
    reads nodes
  {
    if nodes == [] then []
    else
      var n := nodes[|nodes| - 1];
      Candidates(nodes[..|nodes| - 1], tier) + (if n.healthy && (tier.None? || n.tier == tier.value) then [n] else [])
  }

  ghost function Weights(nodes: seq<UpstreamNode>): seq<int>
    reads nodes
  {
    seq(|nodes|, i requires 0 <= i < |nodes| reads nodes => nodes[i].weight)
  }

  lemma {:induction false} CandidatesAre(nodes: seq<UpstreamNode>, tier: Option<string>, n: UpstreamNode)
    ensures n in Candidates(nodes, tier) <==> n in nodes && n.healthy && (tier.None? || n.tier == tier.value)
  {
    if nodes != [] {
      var front, last := nodes[..|nodes| - 1], nodes[|nodes| - 1];
      CandidatesAre(front, tier, n);
      assert nodes == front + [last];
    }
  }

  class UpstreamPool {
    const nodes: seq<UpstreamNode>
    const cfg: HealthCheck

    ghost predicate Valid()
      reads this, nodes
    {
      forall i :: 0 <= i < |nodes| ==> nodes[i].weight >= 1 && nodes[i].HealthExact(cfg)
    }

    /** Every node starts healthy, with a weight of at least one and the failure count it comes with. */
    constructor (nodes: seq<UpstreamNode>, cfg: HealthCheck)
      modifies nodes
      ensures Valid() && this.nodes == nodes && this.cfg == cfg
      ensures forall i :: 0 <= i < |nodes| ==>
                && nodes[i].healthy && nodes[i].outcomes == []
                && nodes[i].carried == nodes[i].failCount == old(nodes[i].failCount)
                && nodes[i].weight == (if old(nodes[i].weight) <= 0 then 1 else old(nodes[i].weight))
    {
      this.nodes, this.cfg := nodes, cfg;
      new;
      for i := 0 to |nodes|
        invariant forall j :: 0 <= j < i ==> nodes[j].healthy && nodes[j].carried == nodes[j].failCount && nodes[j].outcomes == []
        invariant forall j :: 0 <= j < |nodes| ==> nodes[j].failCount == old(nodes[j].failCount)
        invariant forall j :: 0 <= j < |nodes| ==>
                    nodes[j].weight == old(nodes[j].weight)
                    || (old(nodes[j].weight) <= 0 && nodes[j].weight == 1)
        invariant forall j :: 0 <= j < i ==> nodes[j].weight >= 1
      {
        var n := nodes[i];
        n.healthy := true;
        n.carried, n.outcomes := n.failCount, [];
        if n.weight <= 0 {
          n.weight := 1;
        }
      }
    }

    /**
     Collects the candidates and lets one draw decide; there is no node exactly when there is no candidate.
     Each candidate answers to as many draws as its weight.
     */
    method Select(tier: Option<string>, random: int -> int) returns (node: UpstreamNode?)
      requires Valid() && forall n :: n > 0 ==> 0 <= random(n) < n
      ensures node == null <==> Candidates(nodes, tier) == []
      ensures node != null ==> node in nodes && node.healthy && (tier.None? || node.tier == tier.value)
      ensures node != null ==>
                var weights := Weights(Candidates(nodes, tier));
                exists i :: 0 <= i < |weights| && DrawPicks(weights, random(Prefix(weights, |weights|)), i)
                            && node == Candidates(nodes, tier)[i] && |DrawsOf(weights, i)| == node.weight
    {
      hide Candidates, Weights, FailCount, Prefix, DrawPicks, DrawsOf;
      var candidates, weights, totalWeight := Collect(tier);
      if |candidates| == 0 {
        return null;
      }
      TotalIsPositive(weights);
      var r := random(totalWeight);
      var i := Pick(weights, r);
      PickedIsIndex(weights, r, i);
      DrawsProportionalToWeight(weights, i);
      CandidatesAre(nodes, tier, candidates[i]);
      return candidates[i];
    }

    static lemma PickedIsIndex(weights: seq<int>, draw: int, i: nat)
      requires DrawPicks(weights, draw, i)
      ensures i < |weights|
    {
    }

    /** The candidates with their weights and total weight. */
    method Collect(tier: Option<string>) returns (candidates: seq<UpstreamNode>, weights: seq<int>, totalWeight: int)
      requires Valid()
      ensures candidates == Candidates(nodes, tier) && weights == Weights(candidates)
      ensures |weights| == |candidates| && forall i :: 0 <= i < |weights| ==> weights[i] == candidates[i].weight
      ensures AllPositive(weights) && totalWeight == Prefix(weights, |weights|)
    {
      candidates, weights, totalWeight := [], [], 0;
      for i := 0 to |nodes|
        invariant candidates == Candidates(nodes[..i], tier)
        invariant |weights| == |candidates| && forall j :: 0 <= j < |weights| ==> weights[j] == candidates[j].weight
        invariant AllPositive(weights) && totalWeight == Prefix(weights, |weights|)
      {
        var n := nodes[i];
        assert nodes[..i + 1][..i] == nodes[..i];
        if tier.Some? && n.tier != tier.value {
          continue;
        }
        if !n.healthy {
          continue;
        }
        PrefixOfLonger(weights, n.weight, |weights|);
        candidates := candidates + [n];
        weights := weights + [n.weight];
        totalWeight := totalWeight + n.weight;
      }
      assert nodes[..|nodes|] == nodes;
      assert weights == Weights(candidates);
    }

    static lemma TotalIsPositive(weights: seq<int>)
      requires AllPositive(weights)
      ensures Prefix(weights, |weights|) >= |weights|
    {
      PrefixIncreases(weights, 0, |weights|);
    }

    static lemma {:induction false} PrefixOfLonger(weights: seq<int>, w: int, n: nat)
      requires n <= |weights|
      ensures Prefix(weights + [w], n) == Prefix(weights, n)
    {
      if n > 0 {
        PrefixOfLonger(weights, w, n - 1);
      }
    }

    method MarkUnhealthy(node: UpstreamNode)
      requires Valid() && node in nodes
      modifies node`healthy, node`failCount, node`outcomes
      ensures Valid() && node.outcomes == old(node.outcomes) + [false]
      ensures node.failCount == old(node.failCount) + 1
      ensures node.healthy == (old(node.healthy) && node.failCount < cfg.unhealthyThreshold)
    {
      node.Note(false, cfg);
    }

    /** One success is enough, whatever the healthy threshold of the configuration says. */
    method MarkHealthy(node: UpstreamNode)
      requires Valid() && node in nodes
      modifies node`healthy, node`failCount, node`outcomes
      ensures Valid() && node.outcomes == old(node.outcomes) + [true]
      ensures node.healthy && node.failCount == 0
    {
      node.Note(true, cfg);
    }
  }
}
