/**
 The optimisation loop of pkg/evolver/optimization.go: mutate clones, keep the first that gains enough,
 stop after three rounds without a gain. Random choices and cancellation are nondeterministic.
 */
module HillClimbing {
  import opened Collections
  import opened Wrappers
  import opened GraphTheory
  import opened WorkflowGraphs
  import opened Optimizers

  datatype MutationKind =
    | MutatePrompt
    | MutateModelTier
    | MutateRouting
    | InsertNode
    | DeleteNode
    | SwapTool

  datatype Mutation = Mutation(kind: MutationKind, nodeID: string)

  datatype MutationError = TargetNotFound | UnsupportedKind

  const PROMPT_SUFFIX := "\n\n[Optimized: focus on key outputs.]"

  const TIERS: set<string> := {"fast", "balanced", "powerful", "vlm"}

  function Digit(d: nat): string
    requires d < 10
  {
    ["0123456789"[d]]
  }

  function ToolName(n: nat): string
    requires n < 100
  {
    "tool_" + (if n < 10 then Digit(n) else Digit(n / 10) + Digit(n % 10))
  }

  /** The digits of a tool's name are those of its number. */
  lemma ToolNameExactly(n: nat)
    requires n < 100
    ensures var digits := ToolName(n)[5..];
      && 1 <= |digits| <= 2 && (forall i :: 0 <= i < |digits| ==> '0' <= digits[i] <= '9')
      && n == if |digits| == 1 then digits[0] as int - '0' as int
              else 10 * (digits[0] as int - '0' as int) + (digits[1] as int - '0' as int)
  {
    DigitExactly(n / 10);
    DigitExactly(n % 10);
  }

  lemma DigitExactly(d: nat)
    requires d < 10
    ensures |Digit(d)| == 1 && Digit(d)[0] as int == '0' as int + d
  {
  }

  /** What one mutation may do to the node it targets. */
  ghost predicate NodeMutated(n: NodeView, m: NodeView, kind: MutationKind) {
    match kind
    case MutatePrompt => m == n.(promptTemplate := n.promptTemplate + PROMPT_SUFFIX)
    case MutateModelTier => m.modelTier in TIERS && m == n.(modelTier := m.modelTier)
    case SwapTool =>
      if n.tools == [] then m == n
      else exists i, k :: 0 <= i < |n.tools| && 0 <= k < 100 && SlotSwapped(n, m, i, k)
    case _ => false
  }

  ghost predicate SlotSwapped(n: NodeView, m: NodeView, i: nat, k: nat)
    requires i < |n.tools| && k < 100
  {
    m == n.(tools := n.tools[i := ToolName(k)])
  }

  /** Only the target node changes, and only as its kind of mutation allows. */
  ghost predicate Mutated(v: GraphView, w: GraphView, mut: Mutation) {
    && mut.nodeID in v.nodes && mut.nodeID in w.nodes
    && w == v.(nodes := v.nodes[mut.nodeID := w.nodes[mut.nodeID]])
    && NodeMutated(v.nodes[mut.nodeID], w.nodes[mut.nodeID], mut.kind)
  }

  ghost function WithFields(v: GraphView, id: string, prompt: string, tier: string): GraphView
    requires id in v.nodes
  {
    v.(nodes := v.nodes[id := v.nodes[id].(promptTemplate := prompt, modelTier := tier)])
  }

  ghost function WithTool(v: GraphView, id: string, slot: nat, tool: string): GraphView
    requires id in v.nodes && slot < |v.nodes[id].tools|
  {
    v.(nodes := v.nodes[id := v.nodes[id].(tools := v.nodes[id].tools[slot := tool])])
  }

  lemma FieldsAreMutation(v: GraphView, mut: Mutation, prompt: string, tier: string)
    requires mut.nodeID in v.nodes
    requires var n := v.nodes[mut.nodeID];
             || (mut.kind == MutatePrompt && prompt == n.promptTemplate + PROMPT_SUFFIX && tier == n.modelTier)
             || (mut.kind == MutateModelTier && prompt == n.promptTemplate && tier in TIERS)
    ensures Mutated(v, WithFields(v, mut.nodeID, prompt, tier), mut)
  {
  }

  lemma SwapIsMutation(v: GraphView, mut: Mutation, slot: nat, number: nat)
    requires mut.nodeID in v.nodes && mut.kind == SwapTool && slot < |v.nodes[mut.nodeID].tools| && number < 100
    ensures Mutated(v, WithTool(v, mut.nodeID, slot, ToolName(number)), mut)
  {
    var n := v.nodes[mut.nodeID];
    assert SlotSwapped(n, n.(tools := n.tools[slot := ToolName(number)]), slot, number);
  }

  lemma NoToolsIsMutation(v: GraphView, mut: Mutation)
    requires mut.nodeID in v.nodes && mut.kind == SwapTool && v.nodes[mut.nodeID].tools == []
    ensures Mutated(v, v, mut)
  {
    assert v.nodes[mut.nodeID := v.nodes[mut.nodeID]] == v.nodes;
  }

  ghost predicate SameShape(v: GraphView, w: GraphView) {
    w.nodes.Keys == v.nodes.Keys && w.edges == v.edges && w.entry == v.entry
  }

  lemma MutationKeepsShape(v: GraphView, w: GraphView, mut: Mutation)
    requires Mutated(v, w, mut)
    ensures SameShape(v, w)
  {
    assert v.nodes[mut.nodeID := w.nodes[mut.nodeID]].Keys == v.nodes.Keys;
  }

  // --------------------------------------------------------------- acceptance

  /** The gain over the best score so far: relative to a positive best, all or nothing otherwise. */
  function Gain(best: real, score: real): real {
    if best > 0.0 then (score - best) / best else if score > best then 1.0 else 0.0
  }

  predicate Accepts(best: real, score: real, threshold: real) {
    Gain(best, score) >= threshold
  }

  /** The loop can never trade down exactly when the threshold is positive, or zero over a positive best. */
  lemma AcceptingNeverLosesExactly(best: real, threshold: real)
    ensures (forall score :: Accepts(best, score, threshold) ==> score >= best)
            <==> threshold > 0.0 || (threshold == 0.0 && best > 0.0)
  {
    if threshold > 0.0 || (threshold == 0.0 && best > 0.0) {
      forall score | Accepts(best, score, threshold) ensures score >= best {
        if best > 0.0 {
          assert score - best == (score - best) / best * best;
        }
      }
    } else if best > 0.0 {
      var worse := best + threshold * best;
      assert (worse - best) / best == threshold by {
        assert worse - best == threshold * best;
      }
      assert Accepts(best, worse, threshold) && worse < best;
    } else {
      assert Accepts(best, best - 1.0, threshold);
    }
  }

  /** Over a positive best, what grows it by the threshold is accepted, and nothing else; otherwise a gain counts as 1. */
  lemma AcceptsExactly(best: real, score: real, threshold: real)
    ensures Accepts(best, score, threshold) <==>
              if best > 0.0 then score >= Grown(best, 1.0 + threshold)
              else if score > best then threshold <= 1.0
              else threshold <= 0.0
  {
    if best > 0.0 {
      assert score - best == Gain(best, score) * best;
      if Gain(best, score) >= threshold {
        assert Gain(best, score) * best >= threshold * best;
      } else {
        assert Gain(best, score) * best < threshold * best;
      }
    }
  }

  lemma AcceptedGrowth(best: real, score: real, threshold: real)
    requires Accepts(best, score, threshold)
    ensures threshold > 0.0 ==> score > best
    ensures best > 0.0 && threshold >= 0.0 ==> score >= Grown(best, 1.0 + threshold)
  {
    if best > 0.0 {
      assert score - best == (score - best) / best * best;
      assert (score - best) / best * best >= threshold * best;
    }
  }

  // ------------------------------------------------------------------ history

  /** Round by round the best score stays or is replaced by one that was accepted over it. */
  ghost predicate SoundHistory(h: seq<real>, threshold: real) {
    h != [] && forall i :: 0 < i < |h| ==> SoundRound(h, threshold, i)
  }

  ghost predicate SoundRound(h: seq<real>, threshold: real, i: nat)
    requires 0 < i < |h|
  {
    h[i] == h[i - 1] || Accepts(h[i - 1], h[i], threshold)
  }

  ghost function Improvements(h: seq<real>): nat {
    if |h| <= 1 then 0
    else Improvements(h[..|h| - 1]) + (if h[|h| - 1] != h[|h| - 2] then 1 else 0)
  }

  ghost predicate EndsFlat(h: seq<real>, rounds: nat) {
    |h| > rounds && forall i :: |h| - 1 - rounds <= i < |h| ==> h[i] == h[|h| - 1]
  }

  /** Where the acceptance test can be trusted over a whole run. */
  predicate NeverLoses(baseline: real, threshold: real) {
    threshold > 0.0 || (threshold == 0.0 && baseline > 0.0)
  }

  lemma {:induction false} HistoryNeverFalls(h: seq<real>, threshold: real, i: nat, j: nat)
    requires SoundHistory(h, threshold) && i <= j < |h|
    requires NeverLoses(h[0], threshold)
    ensures h[i] <= h[j]
    decreases j
  {
    if i < j {
      HistoryNeverFalls(h, threshold, i, j - 1);
      HistoryNeverFalls(h, threshold, 0, j - 1);
      assert SoundRound(h, threshold, j);
      if h[j] != h[j - 1] {
        AcceptedGrowth(h[j - 1], h[j], threshold);
      }
    }
  }

  // ---------------------------------------------------------------- the trials

  /** What became of one proposed mutation: it could not be applied, its result could not be scored, or was scored. */
  datatype Trial = Unusable | Unscored(candidate: GraphView) | Scored(candidate: GraphView, score: real)

  datatype Round = Round(mutations: seq<Mutation>, trials: seq<Trial>)

  predicate IsUsable(kind: MutationKind) {
    kind in {MutatePrompt, MutateModelTier, SwapTool}
  }

  ghost predicate IsTrial(eval: Evaluator, v: GraphView, mut: Mutation, t: Trial) {
    match t
    case Unusable => mut.nodeID !in v.nodes || !IsUsable(mut.kind)
    case Unscored(w) => Mutated(v, w, mut) && eval(w) == None
    case Scored(w, score) => Mutated(v, w, mut) && eval(w) == Some(score)
  }

  predicate IsRefused(best: real, threshold: real, t: Trial) {
    t.Scored? ==> !Accepts(best, t.score, threshold)
  }

  /** The last of these trials is taken. */
  predicate Takes(best: real, threshold: real, trials: seq<Trial>) {
    trials != [] && !IsRefused(best, threshold, trials[|trials| - 1])
  }

  /** The mutations are tried in turn, up to the first that is taken, or else all of them. */
  ghost predicate Tried(eval: Evaluator, v: GraphView, best: real, threshold: real, round: Round) {
    && |round.trials| <= |round.mutations|
    && (forall k :: 0 <= k < |round.trials| ==> IsTrial(eval, v, round.mutations[k], round.trials[k]))
    && (forall k :: 0 <= k < |round.trials| - 1 ==> IsRefused(best, threshold, round.trials[k]))
    && (|round.trials| < |round.mutations| ==> Takes(best, threshold, round.trials))
  }

  function ScoredAmong(trials: seq<Trial>): nat {
    if trials == [] then 0 else ScoredAmong(trials[..|trials| - 1]) + (if trials[|trials| - 1].Scored? then 1 else 0)
  }

  function ScoredInAll(rounds: seq<Round>): nat {
    if rounds == [] then 0 else ScoredInAll(rounds[..|rounds| - 1]) + ScoredAmong(rounds[|rounds| - 1].trials)
  }

  /** `n` mutations of the graph's nodes, all of usable kinds. */
  ghost predicate Proposed(v: GraphView, n: nat, mutations: seq<Mutation>) {
    |mutations| == n && forall k :: 0 <= k < n ==> mutations[k].nodeID in v.nodes && IsUsable(mutations[k].kind)
  }

  /** One round of a search from `v`: the first mutation that is accepted is taken, and if none is, nothing changes. */
  ghost predicate IsRound(eval: Evaluator, threshold: real, n: nat, v: GraphView, w: GraphView, best: real, score: real, round: Round) {
    && Proposed(v, n, round.mutations) && Tried(eval, v, best, threshold, round)
    && if Takes(best, threshold, round.trials)
       then var last := round.trials[|round.trials| - 1];
            w == last.candidate && score == last.score
       else w == v && score == best
  }

  /** The best graphs and their scores, round by round. */
  ghost predicate IsSearch(eval: Evaluator, threshold: real, n: nat, views: seq<GraphView>, h: seq<real>, rounds: seq<Round>) {
    && |views| == |h| == |rounds| + 1
    && (forall i :: 0 <= i < |h| ==> eval(views[i]) == Some(h[i]))
    && forall i :: 0 <= i < |rounds| ==> IsRound(eval, threshold, n, views[i], views[i + 1], h[i], h[i + 1], rounds[i])
  }

  /** Exactly the last `flat` rounds took nothing. */
  ghost predicate EndsRefused(threshold: real, h: seq<real>, rounds: seq<Round>, flat: nat)
    requires |h| == |rounds| + 1
  {
    && flat <= |rounds|
    && (forall i :: |rounds| - flat <= i < |rounds| ==> !Takes(h[i], threshold, rounds[i].trials))
    && (flat < |rounds| ==> Takes(h[|rounds| - 1 - flat], threshold, rounds[|rounds| - 1 - flat].trials))
  }

  /** A search with these scores leads from `v` to `w`; it scores `total` candidates, and its last `flat` rounds none it takes. */
  ghost predicate Searched(eval: Evaluator, threshold: real, n: nat, v: GraphView, h: seq<real>, w: GraphView, total: nat, flat: nat) {
    exists views, rounds :: SearchBetween(eval, threshold, n, v, h, w, views, rounds, total, flat)
  }

  ghost predicate SearchBetween(eval: Evaluator, threshold: real, n: nat, v: GraphView, h: seq<real>, w: GraphView,
                                views: seq<GraphView>, rounds: seq<Round>, total: nat, flat: nat)
  {
    && IsSearch(eval, threshold, n, views, h, rounds)
    && views[0] == v && views[|views| - 1] == w
    && ScoredInAll(rounds) == total && EndsRefused(threshold, h, rounds, flat)
  }

  lemma SearchStarts(eval: Evaluator, threshold: real, n: nat, v: GraphView, best: real)
    requires eval(v) == Some(best)
    ensures Searched(eval, threshold, n, v, [best], v, 0, 0)
  {
    assert SearchBetween(eval, threshold, n, v, [best], v, [v], [], 0, 0);
  }

  lemma RefusalsGoOn(threshold: real, h: seq<real>, rounds: seq<Round>, flat: nat, score: real, round: Round)
    requires |h| == |rounds| + 1 && EndsRefused(threshold, h, rounds, flat)
    ensures EndsRefused(threshold, h + [score], rounds + [round],
                        if Takes(h[|h| - 1], threshold, round.trials) then 0 else flat + 1)
  {
    hide Takes;
  }

  lemma SearchGoesOn(eval: Evaluator, threshold: real, n: nat, v: GraphView, h: seq<real>, w: GraphView, total: nat, flat: nat,
                     w': GraphView, score: real, round: Round)
    requires h != [] && Searched(eval, threshold, n, v, h, w, total, flat)
    requires eval(w') == Some(score) && IsRound(eval, threshold, n, w, w', h[|h| - 1], score, round)
    ensures Searched(eval, threshold, n, v, h + [score], w', total + ScoredAmong(round.trials),
                     if Takes(h[|h| - 1], threshold, round.trials) then 0 else flat + 1)
  {
    hide IsRound, Takes, ScoredAmong, EndsRefused;
    var views, rounds :| SearchBetween(eval, threshold, n, v, h, w, views, rounds, total, flat);
    assert (rounds + [round])[..|rounds|] == rounds;
    RefusalsGoOn(threshold, h, rounds, flat, score, round);
    assert SearchBetween(eval, threshold, n, v, h + [score], w', views + [w'], rounds + [round],
                         total + ScoredAmong(round.trials),
                         if Takes(h[|h| - 1], threshold, round.trials) then 0 else flat + 1);
  }

  /** Under a positive threshold the best score stays the same in a round exactly if all its mutations were tried and refused. */
  lemma FlatExactly(eval: Evaluator, threshold: real, n: nat, v: GraphView, w: GraphView, best: real, score: real, round: Round)
    requires threshold > 0.0 && IsRound(eval, threshold, n, v, w, best, score, round)
    ensures score == best <==> RefusesAll(eval, threshold, n, v, best, round)
  {
    hide Accepts, Mutated;
    if Takes(best, threshold, round.trials) {
      AcceptedGrowth(best, score, threshold);
    }
  }

  /** Every proposed mutation of `v` was tried, and none gained enough over `best`. */
  ghost predicate RefusesAll(eval: Evaluator, threshold: real, n: nat, v: GraphView, best: real, round: Round) {
    && Proposed(v, n, round.mutations) && |round.trials| == |round.mutations|
    && forall k :: 0 <= k < n ==> IsTrial(eval, v, round.mutations[k], round.trials[k]) && IsRefused(best, threshold, round.trials[k])
  }

  /** The last rounds of a search took nothing, so they all searched around the graph it ends with. */
  lemma {:induction false} EndIsStuck(eval: Evaluator, threshold: real, n: nat, views: seq<GraphView>, h: seq<real>, rounds: seq<Round>,
                                      flat: nat, k: nat)
    requires IsSearch(eval, threshold, n, views, h, rounds) && EndsRefused(threshold, h, rounds, flat) && k <= flat
    ensures var i := |rounds| - k;
      && views[i] == views[|rounds|] && h[i] == h[|rounds|]
      && (k > 0 ==> RefusesAll(eval, threshold, n, views[|rounds|], h[|rounds|], rounds[i]))
  {
    hide IsTrial, Accepts;
    if k > 0 {
      EndIsStuck(eval, threshold, n, views, h, rounds, flat, k - 1);
      var i := |rounds| - k;
      assert IsRound(eval, threshold, n, views[i], views[i + 1], h[i], h[i + 1], rounds[i]);
    }
  }

  lemma SearchIsSound(eval: Evaluator, threshold: real, n: nat, views: seq<GraphView>, h: seq<real>, rounds: seq<Round>)
    requires IsSearch(eval, threshold, n, views, h, rounds)
    ensures SoundHistory(h, threshold)
  {
    hide Accepts, Mutated, Tried, Proposed;
    forall i | 0 < i < |h| ensures SoundRound(h, threshold, i) {
      assert IsRound(eval, threshold, n, views[i - 1], views[i], h[i - 1], h[i], rounds[i - 1]);
    }
  }

  ghost predicate NeverFalls(h: seq<real>) {
    forall i, j :: 0 <= i <= j < |h| ==> h[i] <= h[j]
  }

  /** From a graph that can be mutated, no search falls exactly under a trustworthy threshold, whatever the evaluator. */
  lemma SearchNeverFallsExactly(v: GraphView, baseline: real, threshold: real, n: nat)
    requires v.nodes.Keys != {} && n > 0
    ensures (forall eval, views, h, rounds :: IsSearch(eval, threshold, n, views, h, rounds) && views[0] == v && h[0] == baseline ==>
               NeverFalls(h))
            <==> NeverLoses(baseline, threshold)
  {
    hide IsSearch, SoundHistory;
    if NeverLoses(baseline, threshold) {
      forall eval, views, h, rounds | IsSearch(eval, threshold, n, views, h, rounds) && |h| > 0 && h[0] == baseline
        ensures NeverFalls(h)
      {
        SearchIsSound(eval, threshold, n, views, h, rounds);
        forall i, j | 0 <= i <= j < |h| ensures h[i] <= h[j] {
          HistoryNeverFalls(h, threshold, i, j);
        }
      }
      SearchesAreNotEmpty(threshold, n);
    } else {
      FallingSearch(v, baseline, threshold, n);
    }
  }

  lemma SearchesAreNotEmpty(threshold: real, n: nat)
    ensures forall eval, views, h, rounds :: IsSearch(eval, threshold, n, views, h, rounds) ==> |h| > 0 && |views| == |h|
  {
  }

  /** Otherwise one round suffices: the mutated prompt scores worse and is accepted. */
  lemma FallingSearch(v: GraphView, baseline: real, threshold: real, n: nat)
    requires v.nodes.Keys != {} && !NeverLoses(baseline, threshold) && n > 0
    ensures exists eval, views, h, rounds ::
              IsSearch(eval, threshold, n, views, h, rounds) && views[0] == v && h[0] == baseline && !NeverFalls(h)
  {
    AcceptingNeverLosesExactly(baseline, threshold);
    var worse :| Accepts(baseline, worse, threshold) && worse < baseline;
    var id :| id in v.nodes.Keys;
    var mut := Mutation(MutatePrompt, id);
    var m := v.nodes[id];
    var w := WithFields(v, id, m.promptTemplate + PROMPT_SUFFIX, m.modelTier);
    FieldsAreMutation(v, mut, m.promptTemplate + PROMPT_SUFFIX, m.modelTier);
    assert |w.nodes[id].promptTemplate| > |m.promptTemplate|;
    var eval: Evaluator := view => if view == v then Some(baseline) else Some(worse);
    var views, h, round := [v, w], [baseline, worse], Round(Repeat(mut, n), [Scored(w, worse)]);
    assert IsTrial(eval, v, mut, Scored(w, worse));
    assert IsRound(eval, threshold, n, views[0], views[1], h[0], h[1], round);
    assert h[1] < h[0];
    assert IsSearch(eval, threshold, n, views, h, [round]) && !NeverFalls(h);
  }

  /** From a positive baseline, every improvement multiplies the best score by at least one plus the threshold. */
  lemma {:induction false} HistoryCompounds(h: seq<real>, threshold: real)
    requires SoundHistory(h, threshold) && h[0] > 0.0 && threshold >= 0.0
    ensures h[|h| - 1] >= Compounded(h[0], 1.0 + threshold, Improvements(h)) && h[|h| - 1] > 0.0
  {
    if |h| == 1 {
      NotCompoundedYet(h[0], 1.0 + threshold);
    } else {
      var front := h[..|h| - 1];
      forall i | 0 < i < |front| ensures SoundRound(front, threshold, i) {
        assert SoundRound(h, threshold, i);
      }
      HistoryCompounds(front, threshold);
      HistoryCompoundsStep(h, threshold);
    }
  }

  lemma HistoryCompoundsStep(h: seq<real>, threshold: real)
    requires SoundHistory(h, threshold) && h[0] > 0.0 && threshold >= 0.0 && |h| > 1
    requires h[|h| - 2] >= Compounded(h[0], 1.0 + threshold, Improvements(h[..|h| - 1])) && h[|h| - 2] > 0.0
    ensures h[|h| - 1] >= Compounded(h[0], 1.0 + threshold, Improvements(h)) && h[|h| - 1] > 0.0
  {
    hide *;
    LastRound(h, threshold);
    if h[|h| - 1] != h[|h| - 2] {
      GainCompounds(h[0], 1.0 + threshold, Improvements(h[..|h| - 1]), h[|h| - 2], h[|h| - 1]);
    }
  }

  lemma LastRound(h: seq<real>, threshold: real)
    requires SoundHistory(h, threshold) && |h| > 1
    ensures Improvements(h) == Improvements(h[..|h| - 1]) + (if h[|h| - 1] != h[|h| - 2] then 1 else 0)
    ensures h[|h| - 1] != h[|h| - 2] && h[|h| - 2] > 0.0 && threshold >= 0.0 ==>
              h[|h| - 1] >= Grown(h[|h| - 2], 1.0 + threshold)
  {
    hide Accepts, Gain, Grown;
    assert SoundRound(h, threshold, |h| - 1);
    if h[|h| - 1] != h[|h| - 2] {
      AcceptedGrowth(h[|h| - 2], h[|h| - 1], threshold);
    }
  }

  /** One more round: unchanged, or accepted. */
  lemma HistoryGrows(h: seq<real>, threshold: real, score: real, accepted: bool, flat: nat)
    requires SoundHistory(h, threshold) && EndsFlat(h, flat)
    requires if accepted then Accepts(h[|h| - 1], score, threshold) else score == h[|h| - 1]
    requires threshold > 0.0 && |h| > flat + 1 ==> h[|h| - 2 - flat] != h[|h| - 1]
    ensures SoundHistory(h + [score], threshold)
    ensures EndsFlat(h + [score], if accepted then 0 else flat + 1)
    ensures Improvements(h + [score]) <= Improvements(h) + (if accepted then 1 else 0)
    ensures threshold > 0.0 ==> Improvements(h + [score]) == Improvements(h) + (if accepted then 1 else 0)
    ensures threshold > 0.0 && |h + [score]| > (if accepted then 0 else flat + 1) + 1 ==>
              (h + [score])[|h + [score]| - 2 - (if accepted then 0 else flat + 1)] != score
  {
    var longer := h + [score];
    assert longer[..|h|] == h;
    forall i | 0 < i < |longer| ensures SoundRound(longer, threshold, i) {
      assert i < |h| ==> SoundRound(h, threshold, i);
    }
    if accepted {
      AcceptedGrowth(h[|h| - 1], score, threshold);
    }
  }

  // ---------------------------------------------------------------- optimiser

  datatype OptimizationResult = OptimizationResult(
    bestGraph: WorkflowGraph,
    bestScore: real,
    iterations: nat,
    totalMutations: nat,
    history: seq<real>,
    converged: bool
  )

  datatype OptimizeError = BaselineNotScored | Cancelled

  /** What every returned result satisfies, cancelled or not. */
  ghost predicate SoundResult(eval: Evaluator, v: GraphView, threshold: real, n: nat, r: OptimizationResult)
    reads r.bestGraph, r.bestGraph.Repr
  {
    && r.bestGraph.Valid()
    && SameShape(v, r.bestGraph.View())
    && eval(r.bestGraph.View()) == Some(r.bestScore)
    && SoundHistory(r.history, threshold)
    && (exists flat: nat :: (r.converged <==> flat == 3) && flat <= 3
          && Searched(eval, threshold, n, v, r.history, r.bestGraph.View(), r.totalMutations, flat))
    && |r.history| == r.iterations + 1
    && eval(v) == Some(r.history[0])
    && r.history[r.iterations] == r.bestScore
    && Improvements(r.history) <= r.totalMutations
    && (r.converged ==> EndsFlat(r.history, 3))
    && (threshold > 0.0 && EndsFlat(r.history, 3) ==> r.converged)
  }

  lemma ResultHistory(eval: Evaluator, v: GraphView, threshold: real, n: nat, r: OptimizationResult)
    requires SoundResult(eval, v, threshold, n, r)
    ensures SoundHistory(r.history, threshold) && r.history[|r.history| - 1] == r.bestScore
    ensures r.bestGraph.Valid() && SameShape(v, r.bestGraph.View())
  {
  }

  /** The best graph is valid if the caller's was, and from a positive baseline its score has compounded. */
  lemma SoundResultIsGood(eval: Evaluator, v: GraphView, threshold: real, n: nat, r: OptimizationResult)
    requires SoundResult(eval, v, threshold, n, r)
    ensures PassesValidation(v) ==> PassesValidation(r.bestGraph.View())
    ensures NeverLoses(r.history[0], threshold) ==> NeverFalls(r.history)
    ensures r.history[0] > 0.0 && threshold >= 0.0 ==>
              r.bestScore >= Compounded(r.history[0], 1.0 + threshold, Improvements(r.history))
  {
    hide SoundResult, SoundHistory, Compounded, Improvements, Cyclic, Reaches;
    ResultHistory(eval, v, threshold, n, r);
    if NeverLoses(r.history[0], threshold) {
      forall i, j | 0 <= i <= j < |r.history| ensures r.history[i] <= r.history[j] {
        HistoryNeverFalls(r.history, threshold, i, j);
      }
    }
    if r.history[0] > 0.0 && threshold >= 0.0 {
      HistoryCompounds(r.history, threshold);
    }
  }

  /** The loop's state: the result so far, and how many rounds in a row brought no gain. */
  ghost predicate RunSound(eval: Evaluator, v: GraphView, threshold: real, n: nat, r: OptimizationResult, flat: nat)
    reads r.bestGraph, r.bestGraph.Repr
  {
    && r.bestGraph.Valid()
    && SameShape(v, r.bestGraph.View())
    && eval(r.bestGraph.View()) == Some(r.bestScore)
    && HistorySound(eval(v), threshold, r, flat)
    && Searched(eval, threshold, n, v, r.history, r.bestGraph.View(), r.totalMutations, flat)
  }

  ghost predicate HistorySound(baseline: Option<real>, threshold: real, r: OptimizationResult, flat: nat) {
    && SoundHistory(r.history, threshold)
    && |r.history| == r.iterations + 1
    && baseline == Some(r.history[0])
    && r.history[r.iterations] == r.bestScore
    && Improvements(r.history) <= r.totalMutations
    && EndsFlat(r.history, flat)
    && (threshold > 0.0 && |r.history| > flat + 1 ==> r.history[|r.history| - 2 - flat] != r.bestScore)
    && flat <= 3 && (r.converged <==> flat == 3)
  }

  lemma StartIsSound(eval: Evaluator, v: GraphView, threshold: real, n: nat, r: OptimizationResult)
    requires r.bestGraph.Valid() && r.bestGraph.View() == v && eval(v) == Some(r.bestScore)
    requires r.iterations == 0 && r.totalMutations == 0 && r.history == [r.bestScore] && !r.converged
    ensures RunSound(eval, v, threshold, n, r, 0)
  {
    SearchStarts(eval, threshold, n, v, r.bestScore);
  }

  lemma HistoryRound(baseline: Option<real>, threshold: real, r: OptimizationResult, flat: nat,
                     next: OptimizationResult, accepted: bool)
    requires HistorySound(baseline, threshold, r, flat) && !r.converged
    requires if accepted then Accepts(r.bestScore, next.bestScore, threshold) else next.bestScore == r.bestScore
    requires next.iterations == r.iterations + 1 && next.history == r.history + [next.bestScore]
    requires next.totalMutations >= r.totalMutations + (if accepted then 1 else 0)
    requires next.converged <==> !accepted && flat + 1 >= 3
    ensures HistorySound(baseline, threshold, next, if accepted then 0 else flat + 1)
  {
    hide Accepts, Improvements;
    HistoryGrows(r.history, threshold, next.bestScore, accepted, flat);
  }

  lemma HistoryEnd(baseline: Option<real>, threshold: real, r: OptimizationResult, flat: nat)
    requires HistorySound(baseline, threshold, r, flat)
    ensures r.history != [] && r.history[|r.history| - 1] == r.bestScore
  {
  }

  lemma ShapeOfItself(v: GraphView)
    ensures SameShape(v, v)
  {
  }

  /** A round that takes a mutation scores it, and what is taken is a mutation of the same shape. */
  lemma TakenIsScored(eval: Evaluator, threshold: real, n: nat, v: GraphView, w: GraphView, best: real, score: real, round: Round)
    requires IsRound(eval, threshold, n, v, w, best, score, round)
    ensures SameShape(v, w)
    ensures Takes(best, threshold, round.trials) ==> Accepts(best, score, threshold) && ScoredAmong(round.trials) > 0
    ensures !Takes(best, threshold, round.trials) ==> w == v && score == best
  {
    hide Accepts, Mutated, SameShape;
    if Takes(best, threshold, round.trials) {
      var k := |round.trials| - 1;
      assert IsTrial(eval, v, round.mutations[k], round.trials[k]);
      MutationKeepsShape(v, w, round.mutations[k]);
    } else {
      ShapeOfItself(v);
    }
  }

  /** One round keeps the state sound, whatever it takes. */
  lemma RoundIsSound(eval: Evaluator, v: GraphView, threshold: real, n: nat, r: OptimizationResult, flat: nat,
                     next: OptimizationResult, round: Round)
    requires RunSound(eval, v, threshold, n, r, flat) && !r.converged
    requires next.bestGraph.Valid() && eval(next.bestGraph.View()) == Some(next.bestScore)
    requires IsRound(eval, threshold, n, r.bestGraph.View(), next.bestGraph.View(), r.bestScore, next.bestScore, round)
    requires next.iterations == r.iterations + 1 && next.history == r.history + [next.bestScore]
    requires next.totalMutations == r.totalMutations + ScoredAmong(round.trials)
    requires next.converged <==> !Takes(r.bestScore, threshold, round.trials) && flat + 1 >= 3
    ensures RunSound(eval, v, threshold, n, next, if Takes(r.bestScore, threshold, round.trials) then 0 else flat + 1)
  {
    hide HistorySound, Accepts, Searched, Mutated, IsRound, Takes, ScoredAmong;
    TakenIsScored(eval, threshold, n, r.bestGraph.View(), next.bestGraph.View(), r.bestScore, next.bestScore, round);
    HistoryRound(eval(v), threshold, r, flat, next, Takes(r.bestScore, threshold, round.trials));
    HistoryEnd(eval(v), threshold, r, flat);
    SearchGoesOn(eval, threshold, n, v, r.history, r.bestGraph.View(), r.totalMutations, flat,
                 next.bestGraph.View(), next.bestScore, round);
  }

  /** A converged search ended with three rounds that tried all their mutations of the best graph and took none. */
  lemma ConvergedIsStuck(eval: Evaluator, v: GraphView, threshold: real, n: nat, r: OptimizationResult)
    requires SoundResult(eval, v, threshold, n, r) && r.converged
    ensures exists rounds: seq<Round> :: |rounds| == 3 &&
              forall i :: 0 <= i < 3 ==> RefusesAll(eval, threshold, n, r.bestGraph.View(), r.bestScore, rounds[i])
  {
    hide RefusesAll, IsRound, Takes;
    var w := r.bestGraph.View();
    var views, rounds :| SearchBetween(eval, threshold, n, v, r.history, w, views, rounds, r.totalMutations, 3);
    var m := |rounds|;
    EndIsStuck(eval, threshold, n, views, r.history, rounds, 3, 3);
    EndIsStuck(eval, threshold, n, views, r.history, rounds, 3, 2);
    EndIsStuck(eval, threshold, n, views, r.history, rounds, 3, 1);
    var last := rounds[m - 3..];
    assert forall i :: 0 <= i < 3 ==> RefusesAll(eval, threshold, n, w, r.bestScore, last[i]);
  }

  lemma RunIsSoundResult(eval: Evaluator, v: GraphView, threshold: real, n: nat, r: OptimizationResult, flat: nat)
    requires RunSound(eval, v, threshold, n, r, flat)
    ensures SoundResult(eval, v, threshold, n, r)
  {
  }

  class WorkflowOptimizer {
    const evaluator: Evaluator
    const maxIterations: int
    const threshold: real
    const mutationsPerIteration: int
    var runs: seq<OptimizationResult>

    constructor (evaluator: Evaluator, maxIterations: int, threshold: real, mutationsPerIteration: int)
      ensures this.evaluator == evaluator && this.maxIterations == maxIterations
      ensures this.threshold == threshold && this.mutationsPerIteration == mutationsPerIteration
      ensures runs == []
    {
      this.evaluator, this.maxIterations := evaluator, maxIterations;
      this.threshold, this.mutationsPerIteration := threshold, mutationsPerIteration;
      runs := [];
    }

    /** How many mutations a round proposes. */
    function Proposals(): (n: nat)
      ensures if mutationsPerIteration > 0 then n == mutationsPerIteration else n == 1
    {
      if mutationsPerIteration <= 0 then 1 else mutationsPerIteration
    }

    /** Any targets, any of the three kinds the strategies draw from; none only when the graph has no node. */
    method GenerateMutations(graph: WorkflowGraph) returns (mutations: seq<Mutation>)
      requires graph.Valid()
      ensures if graph.nodes.Keys == {} then mutations == [] else Proposed(graph.View(), Proposals(), mutations)
    {
      mutations := [];
      if graph.nodes.Keys == {} {
        return;
      }
      for i := 0 to Proposals()
        invariant Proposed(graph.View(), i, mutations)
      {
        var id :| id in graph.nodes.Keys;
        var kind :| kind in {MutatePrompt, MutateModelTier, SwapTool};
        NodeObject(graph, id);
        mutations := mutations + [Mutation(kind, id)];
      }
    }

    // --- mutation of one node in place

    method WriteNode(graph: WorkflowGraph, id: string, prompt: string, tier: string)
      requires graph.Valid() && graph.Separated() && id in graph.nodes && id in graph.View().nodes
      modifies graph.nodes[id]
      ensures graph.Valid() && graph.Separated()
      ensures graph.View() == WithFields(old(graph.View()), id, prompt, tier)
    {
      hide MetricsOf, WorkflowGraph.View, WorkflowGraph.NodeViews;
      var n := graph.nodes[id];
      n.promptTemplate, n.modelTier := prompt, tier;
      graph.NodeWritten(id);
    }

    /** Overwrites one slot of the node's tool list in place. */
    method WriteTool(graph: WorkflowGraph, id: string, slot: nat, tool: string)
      requires graph.Valid() && graph.Separated() && id in graph.nodes && id in graph.View().nodes
      requires graph.nodes[id].toolIDs != null && slot < graph.nodes[id].toolIDs.Length
      requires slot < |graph.View().nodes[id].tools|
      modifies graph.nodes[id].toolIDs
      ensures graph.Valid() && graph.Separated()
      ensures graph.View() == WithTool(old(graph.View()), id, slot, tool)
    {
      hide MetricsOf, WorkflowGraph.View, WorkflowGraph.NodeViews;
      var tools := graph.nodes[id].toolIDs;
      tools[slot] := tool;
      assert tools[..] == old(tools[..])[slot := tool];
      graph.NodeWritten(id);
    }

    /** Applies one mutation in place, with the random tier, slot and tool number left open. */
    method ApplyMutation(graph: WorkflowGraph, mut: Mutation) returns (err: Option<MutationError>)
      requires graph.Valid() && graph.Separated()
      modifies graph.Repr
      ensures graph.Valid() && graph.Separated() && graph.Repr == old(graph.Repr)
      ensures err == if mut.nodeID !in old(graph.View()).nodes then Some(TargetNotFound)
                     else if !IsUsable(mut.kind) then Some(UnsupportedKind)
                     else None
      ensures err.Some? ==> graph.View() == old(graph.View())
      ensures err.None? ==> Mutated(old(graph.View()), graph.View(), mut)
    {
      hide *;
      NodeObject(graph, mut.nodeID);
      if mut.nodeID !in graph.nodes {
        return Some(TargetNotFound);
      }
      var node := graph.nodes[mut.nodeID];
      UsableKinds();
      match mut.kind
      case MutatePrompt =>
        var prompt := node.promptTemplate + PROMPT_SUFFIX;
        FieldsAreMutation(graph.View(), mut, prompt, node.modelTier);
        WriteNode(graph, mut.nodeID, prompt, node.modelTier);
        return None;
      case MutateModelTier =>
        SomeTier();
        var tier :| tier in TIERS;
        FieldsAreMutation(graph.View(), mut, node.promptTemplate, tier);
        WriteNode(graph, mut.nodeID, node.promptTemplate, tier);
        return None;
      case SwapTool =>
        if node.toolIDs != null && node.toolIDs.Length > 0 {
          var slot :| 0 <= slot < node.toolIDs.Length;
          var number :| 0 <= number < 100;
          SwapIsMutation(graph.View(), mut, slot, number);
          WriteTool(graph, mut.nodeID, slot, ToolName(number));
        } else {
          NoToolsIsMutation(graph.View(), mut);
        }
        return None;
      case _ =>
        return Some(UnsupportedKind);
    }

    lemma UsableKinds()
      ensures forall kind :: IsUsable(kind) <==> kind in {MutatePrompt, MutateModelTier, SwapTool}
    {
    }

    lemma SomeTier()
      ensures "fast" in TIERS
    {
    }

    lemma NodeObject(graph: WorkflowGraph, id: string)
      requires graph.Valid()
      ensures id in graph.nodes <==> id in graph.View().nodes
      ensures id in graph.nodes ==>
                var n := graph.nodes[id];
                var m := graph.View().nodes[id];
                && n in graph.Repr && (n.toolIDs != null ==> n.toolIDs in graph.Repr && |m.tools| == n.toolIDs.Length)
                && m.promptTemplate == n.promptTemplate && m.modelTier == n.modelTier
                && (n.toolIDs == null ==> m.tools == [])
    {
    }

    /**
     One round: the mutations are tried in turn on clones of the working graph, up to the first that gains enough,
     and every candidate that could be scored is counted.
     */
    method TryMutations(working: WorkflowGraph, mutations: seq<Mutation>, best: real)
      returns (accepted: bool, candidate: WorkflowGraph, score: real, scored: nat, ghost trials: seq<Trial>)
      requires working.Valid() && working.Separated()
      ensures Tried(evaluator, working.View(), best, threshold, Round(mutations, trials)) && scored == ScoredAmong(trials)
      ensures accepted <==> Takes(best, threshold, trials)
      ensures accepted ==>
                && fresh(candidate) && fresh(candidate.Repr) && candidate.Valid() && candidate.Separated()
                && trials != [] && trials[|trials| - 1] == Scored(candidate.View(), score)
      ensures !accepted ==> candidate == working && score == best
    {
      hide WorkflowGraph.Valid, WorkflowGraph.Separated, WorkflowGraph.View, Mutated, Tried, AllRefused, Takes;
      hide ScoredAmong, Accepts, IsUsable;
      scored, trials := 0, [];
      NothingTried(working.View(), best, mutations);
      for i := 0 to |mutations|
        invariant |trials| == i && scored == ScoredAmong(trials)
        invariant AllRefused(working.View(), best, mutations, trials)
      {
        var mut := mutations[i];
        candidate := working.Clone();
        var err := ApplyMutation(candidate, mut);
        if err.Some? {
          RefusedOnce(working.View(), best, mutations, trials, Unusable);
          trials := trials + [Unusable];
          continue;
        }
        match evaluator(candidate.View())
        case None =>
          RefusedOnce(working.View(), best, mutations, trials, Unscored(candidate.View()));
          trials := trials + [Unscored(candidate.View())];
        case Some(s) =>
          scored := scored + 1;
          ghost var t := Scored(candidate.View(), s);
          if Accepts(best, s, threshold) {
            TakenAtLast(working.View(), best, mutations, trials, t);
            trials := trials + [t];
            return true, candidate, s, scored, trials;
          }
          RefusedOnce(working.View(), best, mutations, trials, t);
          trials := trials + [t];
      }
      NoneTaken(working.View(), best, mutations, trials);
      return false, working, best, scored, trials;
    }

    /** The first mutations were tried, and none of them was taken. */
    ghost predicate AllRefused(v: GraphView, best: real, mutations: seq<Mutation>, trials: seq<Trial>) {
      |trials| <= |mutations|
      && forall k :: 0 <= k < |trials| ==> IsTrial(evaluator, v, mutations[k], trials[k]) && IsRefused(best, threshold, trials[k])
    }

    lemma NothingTried(v: GraphView, best: real, mutations: seq<Mutation>)
      ensures AllRefused(v, best, mutations, []) && ScoredAmong([]) == 0
    {
    }

    lemma NoneTaken(v: GraphView, best: real, mutations: seq<Mutation>, trials: seq<Trial>)
      requires AllRefused(v, best, mutations, trials) && |trials| == |mutations|
      ensures Tried(evaluator, v, best, threshold, Round(mutations, trials)) && !Takes(best, threshold, trials)
    {
    }

    lemma RefusedOnce(v: GraphView, best: real, mutations: seq<Mutation>, trials: seq<Trial>, t: Trial)
      requires AllRefused(v, best, mutations, trials) && |trials| < |mutations|
      requires IsTrial(evaluator, v, mutations[|trials|], t) && IsRefused(best, threshold, t)
      ensures AllRefused(v, best, mutations, trials + [t])
      ensures ScoredAmong(trials + [t]) == ScoredAmong(trials) + (if t.Scored? then 1 else 0)
    {
      assert (trials + [t])[..|trials|] == trials;
    }

    lemma TakenAtLast(v: GraphView, best: real, mutations: seq<Mutation>, trials: seq<Trial>, t: Trial)
      requires AllRefused(v, best, mutations, trials) && |trials| < |mutations|
      requires IsTrial(evaluator, v, mutations[|trials|], t) && !IsRefused(best, threshold, t)
      ensures Tried(evaluator, v, best, threshold, Round(mutations, trials + [t])) && Takes(best, threshold, trials + [t])
      ensures ScoredAmong(trials + [t]) == ScoredAmong(trials) + 1
    {
      hide IsTrial, Accepts;
      assert (trials + [t])[..|trials|] == trials;
    }

    /** One round on the working graph: the next result, with a fresh best graph if a mutation was accepted. */
    method TryRound(working: WorkflowGraph, r: OptimizationResult, flat: nat, mutations: seq<Mutation>, ghost v: GraphView)
      returns (next: OptimizationResult, flat': nat, working': WorkflowGraph)
      requires working.Valid() && working.Separated() && r.bestGraph.Valid()
      requires working.View() == r.bestGraph.View() && evaluator(r.bestGraph.View()) == Some(r.bestScore)
      requires RunSound(evaluator, v, threshold, Proposals(), r, flat) && !r.converged
      requires Proposed(working.View(), Proposals(), mutations)
      ensures working'.Valid() && working'.Separated() && next.bestGraph.Valid()
      ensures next.bestGraph == r.bestGraph || (fresh(next.bestGraph) && fresh(next.bestGraph.Repr))
      ensures working'.View() == next.bestGraph.View() && evaluator(next.bestGraph.View()) == Some(next.bestScore)
      ensures RunSound(evaluator, v, threshold, Proposals(), next, flat') && next.iterations == r.iterations + 1
    {
      hide *;
      var accepted, candidate, score, scored;
      ghost var trials;
      accepted, candidate, score, scored, trials := TryMutations(working, mutations, r.bestScore);
      var bestGraph := r.bestGraph;
      working' := working;
      if accepted {
        working' := candidate;
        bestGraph := candidate.Clone();
      }
      flat' := if accepted then 0 else flat + 1;
      next := OptimizationResult(bestGraph, score, r.iterations + 1, r.totalMutations + scored,
                                 r.history + [score], flat' >= 3);
      ghost var round := Round(mutations, trials);
      RoundHolds(working.View(), bestGraph.View(), r.bestScore, score, round);
      RoundIsSound(evaluator, v, threshold, Proposals(), r, flat, next, round);
    }

    lemma RoundHolds(v: GraphView, w: GraphView, best: real, score: real, round: Round)
      requires Tried(evaluator, v, best, threshold, round) && Proposed(v, Proposals(), round.mutations)
      requires if Takes(best, threshold, round.trials)
               then round.trials != [] && round.trials[|round.trials| - 1] == Scored(w, score)
               else w == v && score == best
      requires evaluator(v) == Some(best)
      ensures IsRound(evaluator, threshold, Proposals(), v, w, best, score, round)
      ensures evaluator(w) == Some(score)
    {
    }

    /** The loop of Optimize. It ends on convergence, on cancellation, without mutations, or when the budget is spent. */
    method Rounds(graph: WorkflowGraph, ghost v: GraphView, baseline: real) returns (r: OptimizationResult, cancelled: bool)
      requires graph.Valid() && graph.Separated() && v == graph.View() && evaluator(v) == Some(baseline)
      ensures fresh(r.bestGraph) && fresh(r.bestGraph.Repr)
      ensures SoundResult(evaluator, v, threshold, Proposals(), r)
      ensures r.iterations <= (if maxIterations < 0 then 0 else maxIterations)
      ensures cancelled ==> !r.converged
      ensures !cancelled && !r.converged ==> r.iterations >= maxIterations || v.nodes.Keys == {}
    {
      hide *;
      var best := graph.Clone();
      var working := graph;
      var flat := 0;
      cancelled := false;
      r := OptimizationResult(best, baseline, 0, 0, [baseline], false);
      StartIsSound(evaluator, v, threshold, Proposals(), r);
      while r.iterations < maxIterations && !r.converged
        invariant r.iterations <= (if maxIterations < 0 then 0 else maxIterations)
        invariant working.Valid() && working.Separated()
        invariant r.bestGraph.Valid() && fresh(r.bestGraph) && fresh(r.bestGraph.Repr)
        invariant working.View() == r.bestGraph.View() && evaluator(r.bestGraph.View()) == Some(r.bestScore)
        invariant RunSound(evaluator, v, threshold, Proposals(), r, flat)
        decreases maxIterations - r.iterations
      {
        cancelled := *;
        if cancelled {
          break;
        }
        var mutations := GenerateMutations(working);
        if mutations == [] {
          BestHasSameNodes(v, r, flat);
          ViewFields(working);
          NothingProposed(working.View());
          break;
        }
        r, flat, working := TryRound(working, r, flat, mutations, v);
      }
      RunIsSoundResult(evaluator, v, threshold, Proposals(), r, flat);
    }

    lemma NothingProposed(v: GraphView)
      ensures !Proposed(v, Proposals(), [])
    {
    }

    lemma BestHasSameNodes(v: GraphView, r: OptimizationResult, flat: nat)
      requires RunSound(evaluator, v, threshold, Proposals(), r, flat)
      ensures r.bestGraph.View().nodes.Keys == v.nodes.Keys
    {
    }

    /**
     Searches on clones only: nothing the caller holds changes but the list of runs. There is no result exactly
     when the baseline cannot be scored; a cancelled run still returns what it has.
     */
    method Optimize(graph: WorkflowGraph) returns (result: Option<OptimizationResult>, err: Option<OptimizeError>)
      requires graph.Valid() && this !in graph.Repr
      modifies this`runs
      ensures graph.Valid() && graph.View() == old(graph.View())
      ensures result.None? <==> evaluator(graph.View()).None?
      ensures result.None? ==> err == Some(BaselineNotScored) && runs == old(runs)
      ensures result.Some? ==>
                && var r := result.value;
                && fresh(r.bestGraph) && fresh(r.bestGraph.Repr)
                && SoundResult(evaluator, graph.View(), threshold, Proposals(), r)
                && r.iterations <= (if maxIterations < 0 then 0 else maxIterations)
                && runs == old(runs) + [r]
                && err in {None, Some(Cancelled)}
                && (err == Some(Cancelled) ==> !r.converged)
                && (err == None ==> r.converged || r.iterations >= maxIterations || graph.View().nodes.Keys == {})
    {
      hide *;
      var working := graph.Clone();
      var baseline := evaluator(working.View());
      if baseline.None? {
        return None, Some(BaselineNotScored);
      }
      var r, cancelled := Rounds(working, graph.View(), baseline.value);
      runs := runs + [r];
      return Some(r), if cancelled then Some(Cancelled) else None;
    }

    method History() returns (out: seq<OptimizationResult>)
      ensures out == runs
    {
      out := runs;
    }
  }
}
