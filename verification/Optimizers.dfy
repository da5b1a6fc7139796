/**
 The optimisers of pkg/evolver that search over workflow graphs: leaf pruning, prompt tuning of one
 node, and hill climbing on clones. The evaluator is a function of what a graph shows; it may fail.
 */
module Optimizers {
  import opened Collections
  import opened Wrappers
  import opened GraphTheory
  import opened WorkflowGraphs

  type Evaluator = GraphView -> Option<real>

  // ------------------------------------------------------------ leaf pruning

  ghost function WithoutNodes(v: GraphView, ids: seq<string>): GraphView {
    if ids == [] then v else WithoutNode(WithoutNodes(v, ids[..|ids| - 1]), ids[|ids| - 1])
  }

  /** The score a candidate must reach once `pruned` are gone. */
  ghost function Bar(eval: Evaluator, v: GraphView, baseline: real, pruned: seq<string>): real {
    if pruned == [] then baseline
    else match eval(WithoutNodes(v, pruned)) case Some(s) => s case None => baseline
  }

  /** Some graph on the way refused to lose `id`: its evaluation failed or fell below the bar. */
  ghost predicate Refused(eval: Evaluator, v: GraphView, baseline: real, pruned: seq<string>, id: string) {
    exists k :: 0 <= k <= |pruned| && RefusedAt(eval, v, baseline, pruned[..k], id)
  }

  ghost predicate RefusedAt(eval: Evaluator, v: GraphView, baseline: real, gone: seq<string>, id: string) {
    var r := eval(WithoutNode(WithoutNodes(v, gone), id));
    r.None? || r.value < Bar(eval, v, baseline, gone)
  }

  /** Every graph on the way was scored, and no score is below the one before it. */
  ghost predicate NeverDrops(eval: Evaluator, v: GraphView, baseline: real, pruned: seq<string>) {
    forall k :: 0 < k <= |pruned| ==> KeepsUp(eval, v, baseline, pruned[..k])
  }

  /** Removing the last node of `gone` left a graph that scores at least as well as the one before. */
  ghost predicate KeepsUp(eval: Evaluator, v: GraphView, baseline: real, gone: seq<string>)
    requires gone != []
  {
    && eval(WithoutNodes(v, gone)).Some?
    && Bar(eval, v, baseline, gone) >= Bar(eval, v, baseline, gone[..|gone| - 1])
  }

  ghost predicate Prunable(v: GraphView, id: string) {
    id in v.nodes && id != v.entry && IsLeaf(v.edges, id)
  }

  /** What pruning has achieved once the nodes in `visited` were considered, in whatever order. */
  ghost predicate PruneOutcome(eval: Evaluator, v: GraphView, baseline: real, visited: set<string>, pruned: seq<string>) {
    && Distinct(pruned)
    && (forall id :: id in pruned ==> id in visited && Prunable(v, id))
    && NeverDrops(eval, v, baseline, pruned)
    && (forall id :: id in visited && Prunable(v, id) ==> id in pruned || Refused(eval, v, baseline, pruned, id))
  }

  lemma VisitWithoutPruning(eval: Evaluator, v: GraphView, baseline: real, visited: set<string>, pruned: seq<string>, id: string)
    requires PruneOutcome(eval, v, baseline, visited, pruned)
    requires !Prunable(v, id) || RefusedAt(eval, v, baseline, pruned, id)
    ensures PruneOutcome(eval, v, baseline, visited + {id}, pruned)
  {
    assert pruned[..|pruned|] == pruned;
  }

  lemma VisitAndPrune(eval: Evaluator, v: GraphView, baseline: real, visited: set<string>, pruned: seq<string>, id: string)
    requires PruneOutcome(eval, v, baseline, visited, pruned)
    requires Prunable(v, id) && id !in visited
    requires !RefusedAt(eval, v, baseline, pruned, id)
    ensures PruneOutcome(eval, v, baseline, visited + {id}, pruned + [id])
  {
    hide Bar, KeepsUp, NeverDrops, Refused, RefusedAt, Prunable, WithoutNodes;
    KeepsUpNext(eval, v, baseline, pruned, id);
    NeverDropsNext(eval, v, baseline, pruned, id);
    forall x | Refused(eval, v, baseline, pruned, x) ensures Refused(eval, v, baseline, pruned + [id], x) {
      RefusedStays(eval, v, baseline, pruned, id, x);
    }
    assert forall x :: x in pruned + [id] <==> x in pruned || x == id;
  }

  lemma KeepsUpNext(eval: Evaluator, v: GraphView, baseline: real, pruned: seq<string>, id: string)
    requires !RefusedAt(eval, v, baseline, pruned, id)
    ensures KeepsUp(eval, v, baseline, pruned + [id])
  {
    PrefixesAgree(pruned, id);
  }

  lemma NeverDropsNext(eval: Evaluator, v: GraphView, baseline: real, pruned: seq<string>, id: string)
    requires NeverDrops(eval, v, baseline, pruned) && KeepsUp(eval, v, baseline, pruned + [id])
    ensures NeverDrops(eval, v, baseline, pruned + [id])
  {
    hide KeepsUp;
    PrefixesAgree(pruned, id);
    var more := pruned + [id];
    forall k | 0 < k <= |more| ensures KeepsUp(eval, v, baseline, more[..k]) {
      assert k <= |pruned| ==> more[..k] == pruned[..k];
    }
  }

  lemma ViewFields(graph: WorkflowGraph)
    requires graph.Valid()
    ensures graph.View().nodes.Keys == graph.nodes.Keys
    ensures graph.View().edges == graph.edges && graph.View().entry == graph.entryNodeID
  {
  }

  lemma NothingPruned(eval: Evaluator, v: GraphView, baseline: real)
    ensures WithoutNodes(v, []) == v && Bar(eval, v, baseline, []) == baseline
    ensures Elements<string>([]) == {}
    ensures PruneOutcome(eval, v, baseline, {}, [])
  {
  }

  lemma PrunedWereVisited(eval: Evaluator, v: GraphView, baseline: real, visited: set<string>, pruned: seq<string>)
    requires PruneOutcome(eval, v, baseline, visited, pruned)
    ensures Elements(pruned) <= visited
  {
  }

  lemma OnePrunedMore(eval: Evaluator, v: GraphView, baseline: real, pruned: seq<string>, id: string)
    ensures WithoutNodes(v, pruned + [id]) == WithoutNode(WithoutNodes(v, pruned), id)
    ensures var r := eval(WithoutNode(WithoutNodes(v, pruned), id));
            && (RefusedAt(eval, v, baseline, pruned, id) <==> r.None? || r.value < Bar(eval, v, baseline, pruned))
            && (r.Some? ==> Bar(eval, v, baseline, pruned + [id]) == r.value)
    ensures Elements(pruned + [id]) == Elements(pruned) + {id}
    ensures Prunable(v, id) <==> id in v.nodes && id != v.entry && IsLeaf(v.edges, id)
    ensures id !in Elements(pruned) <==> id !in pruned
  {
    PrefixesAgree(pruned, id);
  }

  lemma PrefixesAgree(pruned: seq<string>, id: string)
    ensures forall k :: 0 <= k <= |pruned| ==> (pruned + [id])[..k] == pruned[..k]
    ensures (pruned + [id])[..|pruned|] == pruned && (pruned + [id])[..|pruned| + 1] == pruned + [id]
  {
  }

  lemma RefusedStays(eval: Evaluator, v: GraphView, baseline: real, pruned: seq<string>, id: string, x: string)
    requires Refused(eval, v, baseline, pruned, x)
    ensures Refused(eval, v, baseline, pruned + [id], x)
  {
    var k :| 0 <= k <= |pruned| && RefusedAt(eval, v, baseline, pruned[..k], x);
    assert (pruned + [id])[..k] == pruned[..k];
    assert RefusedAt(eval, v, baseline, (pruned + [id])[..k], x);
  }

  /** Leaves of the original stay leaves, so removing them one by one keeps a valid graph valid. */
  lemma {:induction false} PruningKeepsValidation(v: GraphView, pruned: seq<string>)
    requires PassesValidation(v) && Distinct(pruned) && forall id :: id in pruned ==> Prunable(v, id)
    ensures PassesValidation(WithoutNodes(v, pruned))
    ensures WithoutNodes(v, pruned).entry == v.entry
    ensures WithoutNodes(v, pruned).nodes.Keys == v.nodes.Keys - Elements(pruned)
    ensures forall a, b :: HasEdge(WithoutNodes(v, pruned).edges, a, b) ==> HasEdge(v.edges, a, b)
  {
    if pruned != [] {
      var front := pruned[..|pruned| - 1];
      var id := pruned[|pruned| - 1];
      assert pruned == front + [id];
      PruningKeepsValidation(v, front);
      var w := WithoutNodes(v, front);
      assert Prunable(v, id);
      RemovingLeafKeepsValidation(w, id);
      forall a, b | HasEdge(WithoutNodes(v, pruned).edges, a, b) ensures HasEdge(v.edges, a, b) {
        EdgesWithoutKeepsOthers(w.edges, id, a, b);
      }
      assert Elements(pruned) == Elements(front) + {id};
    }
  }

  /** However the leaves are visited, the pruned graph is valid if the original was, and scores at least the baseline. */
  lemma {:induction false} PrunedGraphScoresAtLeastBaseline(eval: Evaluator, v: GraphView, baseline: real, pruned: seq<string>, k: nat)
    requires NeverDrops(eval, v, baseline, pruned) && k <= |pruned|
    ensures Bar(eval, v, baseline, pruned[..k]) >= baseline
    ensures k > 0 ==> eval(WithoutNodes(v, pruned[..k])) == Some(Bar(eval, v, baseline, pruned[..k]))
  {
    if k > 0 {
      PrunedGraphScoresAtLeastBaseline(eval, v, baseline, pruned, k - 1);
      assert KeepsUp(eval, v, baseline, pruned[..k]);
      assert pruned[..k][..k - 1] == pruned[..k - 1];
    }
  }

  lemma OutcomeKeepsValidation(eval: Evaluator, v: GraphView, baseline: real, pruned: seq<string>)
    requires PassesValidation(v) && PruneOutcome(eval, v, baseline, v.nodes.Keys, pruned)
    ensures PassesValidation(WithoutNodes(v, pruned))
  {
    PruningKeepsValidation(v, pruned);
  }

  class AFlowOptimizer {
    const evaluator: Evaluator

    constructor (evaluator: Evaluator)
      ensures this.evaluator == evaluator
    {
      this.evaluator := evaluator;
    }

    method OutDegrees(graph: WorkflowGraph) returns (outDegree: map<string, int>)
      requires graph.Valid()
      ensures outDegree.Keys == graph.nodes.Keys
      ensures forall v :: v in graph.nodes ==> (outDegree[v] > 0 <==> !IsLeaf(graph.edges, v))
    {
      outDegree := map v | v in graph.nodes.Keys :: 0;
      for i := 0 to |graph.edges|
        invariant outDegree.Keys == graph.nodes.Keys
        invariant forall v :: v in graph.nodes ==> outDegree[v] == |Targets(graph.edges[..i], v)|
      {
        assert graph.edges[..i + 1][..i] == graph.edges[..i];
        var e := graph.edges[i];
        outDegree := outDegree[e.from := outDegree[e.from] + 1];
      }
      assert graph.edges[..|graph.edges|] == graph.edges;
      forall v | v in graph.nodes ensures outDegree[v] > 0 <==> !IsLeaf(graph.edges, v) {
        forall w ensures w in Targets(graph.edges, v) <==> HasEdge(graph.edges, v, w) {
          TargetsAreEdges(graph.edges, v, w);
        }
        if outDegree[v] > 0 {
          assert Targets(graph.edges, v)[0] in Targets(graph.edges, v);
        }
      }
    }

    /** The score of a clone that has lost `id`. */
    method ScoreWithout(graph: WorkflowGraph, id: string) returns (score: Option<real>)
      requires graph.Valid() && id in graph.nodes
      ensures score == evaluator(WithoutNode(graph.View(), id))
    {
      hide *;
      var clone := graph.Clone();
      var _ := clone.RemoveNode(id);
      score := evaluator(clone.View());
    }

    /** Scores a clone without `id`; the graph itself loses `id` only if that score reaches the bar. */
    method TryPrune(graph: WorkflowGraph, id: string, bar: real) returns (removed: bool, score: real)
      requires graph.Valid() && id in graph.nodes && id != graph.entryNodeID
      modifies graph`nodes, graph`edges, graph`entryNodeID
      ensures graph.Valid() && graph.entryNodeID == old(graph.entryNodeID)
      ensures removed <==> evaluator(WithoutNode(old(graph.View()), id)).Some?
                           && evaluator(WithoutNode(old(graph.View()), id)).value >= bar
      ensures removed ==> graph.View() == WithoutNode(old(graph.View()), id)
                          && evaluator(graph.View()) == Some(score)
      ensures !removed ==> graph.View() == old(graph.View()) && score == bar
      ensures graph.nodes.Keys == if removed then old(graph.nodes.Keys) - {id} else old(graph.nodes.Keys)
    {
      hide *;
      var candidate := ScoreWithout(graph, id);
      match candidate
      case None =>
        return false, bar;
      case Some(s) =>
        if s >= bar {
          var _ := graph.RemoveNode(id);
          return true, s;
        }
        return false, bar;
    }

    /** One round of the pruning loop. */
    method Visit(graph: WorkflowGraph, id: string, degree: int, bar: real, pruned: seq<string>,
                 ghost v: GraphView, ghost baseline: real, ghost visited: set<string>)
      returns (pruned': seq<string>, bar': real)
      requires graph.Valid() && graph.View() == WithoutNodes(v, pruned)
      requires graph.entryNodeID == v.entry && id in v.nodes && id !in visited
      requires graph.nodes.Keys == v.nodes.Keys - Elements(pruned)
      requires degree > 0 <==> !IsLeaf(v.edges, id)
      requires bar == Bar(evaluator, v, baseline, pruned)
      requires PruneOutcome(evaluator, v, baseline, visited, pruned)
      modifies graph`nodes, graph`edges, graph`entryNodeID
      ensures graph.Valid() && graph.View() == WithoutNodes(v, pruned')
      ensures graph.entryNodeID == v.entry
      ensures graph.nodes.Keys == v.nodes.Keys - Elements(pruned')
      ensures bar' == Bar(evaluator, v, baseline, pruned')
      ensures PruneOutcome(evaluator, v, baseline, visited + {id}, pruned')
    {
      hide *;
      OnePrunedMore(evaluator, v, baseline, pruned, id);
      PrunedWereVisited(evaluator, v, baseline, visited, pruned);
      pruned', bar' := pruned, bar;
      if degree > 0 || id == graph.entryNodeID {
        VisitWithoutPruning(evaluator, v, baseline, visited, pruned, id);
        return;
      }
      var removed, score := TryPrune(graph, id, bar);
      if removed {
        VisitAndPrune(evaluator, v, baseline, visited, pruned, id);
        pruned', bar' := pruned + [id], score;
      } else {
        VisitWithoutPruning(evaluator, v, baseline, visited, pruned, id);
      }
    }

    method VisitAll(graph: WorkflowGraph, outDegree: map<string, int>, baseline: real, ghost v: GraphView)
      returns (pruned: seq<string>)
      requires graph.Valid() && v == graph.View() && outDegree.Keys == graph.nodes.Keys == v.nodes.Keys
      requires forall id :: id in outDegree ==> (outDegree[id] > 0 <==> !IsLeaf(v.edges, id))
      modifies graph`nodes, graph`edges, graph`entryNodeID
      ensures graph.Valid() && graph.View() == WithoutNodes(v, pruned)
      ensures PruneOutcome(evaluator, v, baseline, v.nodes.Keys, pruned)
    {
      hide *;
      NothingPruned(evaluator, v, baseline);
      ViewFields(graph);
      var bar := baseline;
      pruned := [];
      var unvisited := outDegree.Keys;
      ghost var visited := {};
      while unvisited != {}
        invariant visited == v.nodes.Keys - unvisited && unvisited <= v.nodes.Keys
        invariant graph.Valid() && graph.View() == WithoutNodes(v, pruned)
        invariant graph.entryNodeID == v.entry
        invariant graph.nodes.Keys == v.nodes.Keys - Elements(pruned)
        invariant bar == Bar(evaluator, v, baseline, pruned)
        invariant PruneOutcome(evaluator, v, baseline, visited, pruned)
      {
        var id :| id in unvisited;
        pruned, bar := Visit(graph, id, outDegree[id], bar, pruned, v, baseline, visited);
        unvisited := unvisited - {id};
        visited := visited + {id};
      }
      assert visited == v.nodes.Keys;
    }

    /**
     Removes leaves, visited in arbitrary order, as long as the score does not drop. The out-degrees are
     read once at the start, so a node that becomes a leaf on the way is not considered.
     */
    method PruneLeafNodes(graph: WorkflowGraph, baseline: real) returns (pruned: seq<string>)
      requires graph.Valid()
      modifies graph`nodes, graph`edges, graph`entryNodeID
      ensures graph.Valid()
      ensures graph.View() == WithoutNodes(old(graph.View()), pruned)
      ensures PruneOutcome(evaluator, old(graph.View()), baseline, old(graph.View()).nodes.Keys, pruned)
      ensures PassesValidation(old(graph.View())) ==> PassesValidation(graph.View())
    {
      hide *;
      var outDegree := OutDegrees(graph);
      ghost var v := graph.View();
      ViewFields(graph);
      pruned := VisitAll(graph, outDegree, baseline, v);
      if PassesValidation(v) {
        OutcomeKeepsValidation(evaluator, v, baseline, pruned);
      }
    }
  }

  // ----------------------------------------------------------- prompt tuning

  /** Relative gain needed to take a new score over a positive one; with a best score of zero or less the gain counts as zero. */
  predicate TunerAccepts(best: real, score: real, threshold: real) {
    (if best > 0.0 then (score - best) / best else 0.0) >= threshold
  }

  /** The prompt after `k` revisions. */
  ghost function Revised(revise: string -> string, prompt: string, k: nat): string {
    if k == 0 then prompt else revise(Revised(revise, prompt, k - 1))
  }

  ghost function WithPrompt(v: GraphView, id: string, prompt: string): GraphView
    requires id in v.nodes
  {
    v.(nodes := v.nodes[id := v.nodes[id].(promptTemplate := prompt)])
  }

  /** The score of the graph with the node's prompt revised `k` times. */
  ghost function PromptScore(eval: Evaluator, revise: string -> string, v: GraphView, id: string, k: nat): Option<real>
    requires id in v.nodes
  {
    eval(WithPrompt(v, id, Revised(revise, v.nodes[id].promptTemplate, k)))
  }

  /** The `k`-th revision changes the prompt, can be scored, and gains enough over the one before it. */
  ghost predicate RevisionTaken(eval: Evaluator, revise: string -> string, threshold: real, v: GraphView, id: string, k: nat)
    requires id in v.nodes && k > 0
  {
    var prompt := v.nodes[id].promptTemplate;
    && Revised(revise, prompt, k) != Revised(revise, prompt, k - 1)
    && PromptScore(eval, revise, v, id, k).Some? && PromptScore(eval, revise, v, id, k - 1).Some?
    && TunerAccepts(PromptScore(eval, revise, v, id, k - 1).value, PromptScore(eval, revise, v, id, k).value, threshold)
  }

  ghost predicate RevisionsTaken(eval: Evaluator, revise: string -> string, threshold: real, v: GraphView, id: string, k: nat)
    requires id in v.nodes
  {
    forall j :: 1 <= j <= k ==> RevisionTaken(eval, revise, threshold, v, id, j)
  }

  lemma OneMoreRevision(eval: Evaluator, revise: string -> string, threshold: real, v: GraphView, id: string, k: nat)
    requires id in v.nodes
    requires RevisionsTaken(eval, revise, threshold, v, id, k) && RevisionTaken(eval, revise, threshold, v, id, k + 1)
    ensures RevisionsTaken(eval, revise, threshold, v, id, k + 1)
  {
    forall j | 1 <= j <= k + 1 ensures RevisionTaken(eval, revise, threshold, v, id, j) {
      assert j == k + 1 || RevisionTaken(eval, revise, threshold, v, id, j);
    }
  }

  /** Taking any accepted score is safe exactly for a positive threshold, or for threshold zero over a positive best. */
  lemma TunerNeverLosesExactly(best: real, threshold: real)
    ensures (forall score :: TunerAccepts(best, score, threshold) ==> score >= best)
            <==> threshold > 0.0 || (threshold == 0.0 && best > 0.0)
  {
    if threshold > 0.0 || (threshold == 0.0 && best > 0.0) {
      forall score | TunerAccepts(best, score, threshold) ensures score >= best {
        if best > 0.0 {
          assert score - best == (score - best) / best * best;
        }
      }
    } else if best > 0.0 {
      var worse := best + threshold * best;
      assert (worse - best) / best == threshold by {
        assert worse - best == threshold * best;
      }
      assert TunerAccepts(best, worse, threshold) && worse < best;
    } else {
      assert TunerAccepts(best, best - 1.0, threshold);
    }
  }

  ghost function Power(x: real, n: nat): real {
    if n == 0 then 1.0 else x * Power(x, n - 1)
  }

  ghost function Grown(best: real, growth: real): real {
    best * growth
  }

  /** What `n` gains make of `base`. */
  ghost function Compounded(base: real, growth: real, n: nat): real {
    base * Power(growth, n)
  }

  lemma NotCompoundedYet(base: real, growth: real)
    ensures Compounded(base, growth, 0) == base
  {
  }

  lemma GainCompounds(base: real, growth: real, n: nat, best: real, score: real)
    requires growth >= 1.0 && best >= Compounded(base, growth, n) && best > 0.0 && score >= Grown(best, growth)
    ensures score >= Compounded(base, growth, n + 1) && score > 0.0
  {
    assert best * growth >= base * Power(growth, n) * growth;
  }

  /** Over a positive best, what grows it by the threshold is taken, and nothing else; otherwise all or nothing is. */
  lemma TunerAcceptsExactly(best: real, score: real, threshold: real)
    ensures TunerAccepts(best, score, threshold)
            <==> if best > 0.0 then score >= Grown(best, 1.0 + threshold) else threshold <= 0.0
  {
    if best > 0.0 {
      var gain := (score - best) / best;
      assert score - best == gain * best;
      if gain >= threshold {
        assert gain * best >= threshold * best;
      } else {
        assert gain * best < threshold * best;
      }
    }
  }

  /** Each taken revision multiplies a positive score by at least one plus the threshold. */
  lemma {:induction false} TakenRevisionsCompound(eval: Evaluator, revise: string -> string, threshold: real, v: GraphView, id: string, k: nat)
    requires id in v.nodes && threshold >= 0.0
    requires PromptScore(eval, revise, v, id, 0).Some? && PromptScore(eval, revise, v, id, 0).value > 0.0
    requires RevisionsTaken(eval, revise, threshold, v, id, k)
    ensures PromptScore(eval, revise, v, id, k).Some? && PromptScore(eval, revise, v, id, k).value > 0.0
    ensures PromptScore(eval, revise, v, id, k).value
            >= Compounded(PromptScore(eval, revise, v, id, 0).value, 1.0 + threshold, k)
  {
    hide Revised, PromptScore, TunerAccepts, Power, Grown, Compounded;
    if k > 0 {
      TakenRevisionsCompound(eval, revise, threshold, v, id, k - 1);
      assert RevisionTaken(eval, revise, threshold, v, id, k);
      var best := PromptScore(eval, revise, v, id, k - 1).value;
      var score := PromptScore(eval, revise, v, id, k).value;
      TunerAcceptsExactly(best, score, threshold);
      GainCompounds(PromptScore(eval, revise, v, id, 0).value, 1.0 + threshold, k - 1, best, score);
    } else {
      NotCompoundedYet(PromptScore(eval, revise, v, id, 0).value, 1.0 + threshold);
    }
  }

  /** The scores of the kept revisions never fall. */
  ghost predicate RevisionsNeverFall(eval: Evaluator, revise: string -> string, v: GraphView, id: string, k: nat)
    requires id in v.nodes
  {
    forall j :: 0 < j <= k && PromptScore(eval, revise, v, id, j - 1).Some? && PromptScore(eval, revise, v, id, j).Some? ==>
      PromptScore(eval, revise, v, id, j - 1).value <= PromptScore(eval, revise, v, id, j).value
  }

  /** A tuning run from this baseline that keeps `k` revisions. */
  ghost predicate IsTuning(eval: Evaluator, revise: string -> string, threshold: real, v: GraphView, id: string, k: nat, baseline: real)
    requires id in v.nodes
  {
    PromptScore(eval, revise, v, id, 0) == Some(baseline) && RevisionsTaken(eval, revise, threshold, v, id, k)
  }

  lemma {:induction false} TuningNeverFalls(eval: Evaluator, revise: string -> string, threshold: real, v: GraphView, id: string, k: nat, baseline: real)
    requires id in v.nodes && IsTuning(eval, revise, threshold, v, id, k, baseline)
    requires threshold > 0.0 || (threshold == 0.0 && baseline > 0.0)
    ensures RevisionsNeverFall(eval, revise, v, id, k)
    ensures PromptScore(eval, revise, v, id, k).Some? && PromptScore(eval, revise, v, id, k).value >= baseline
  {
    if k > 0 {
      hide Revised, PromptScore, TunerAccepts;
      TuningNeverFalls(eval, revise, threshold, v, id, k - 1, baseline);
      assert RevisionTaken(eval, revise, threshold, v, id, k);
      TunerNeverLosesExactly(PromptScore(eval, revise, v, id, k - 1).value, threshold);
    }
  }

  /** No tuning run falls, whatever evaluator and revisions, exactly under a positive threshold or zero over a positive baseline. */
  lemma TuningNeverFallsExactly(v: GraphView, id: string, baseline: real, threshold: real)
    requires id in v.nodes
    ensures (forall eval, revise, k :: IsTuning(eval, revise, threshold, v, id, k, baseline) ==> RevisionsNeverFall(eval, revise, v, id, k))
            <==> threshold > 0.0 || (threshold == 0.0 && baseline > 0.0)
  {
    hide IsTuning, RevisionsNeverFall;
    if threshold > 0.0 || (threshold == 0.0 && baseline > 0.0) {
      forall eval, revise, k | IsTuning(eval, revise, threshold, v, id, k, baseline)
        ensures RevisionsNeverFall(eval, revise, v, id, k)
      {
        TuningNeverFalls(eval, revise, threshold, v, id, k, baseline);
      }
    } else {
      FallingTuning(v, id, baseline, threshold);
    }
  }

  /** Otherwise one revision suffices: it scores worse and is taken. */
  lemma FallingTuning(v: GraphView, id: string, baseline: real, threshold: real)
    requires id in v.nodes && !(threshold > 0.0 || (threshold == 0.0 && baseline > 0.0))
    ensures exists eval, revise :: IsTuning(eval, revise, threshold, v, id, 1, baseline) && !RevisionsNeverFall(eval, revise, v, id, 1)
  {
    TunerNeverLosesExactly(baseline, threshold);
    var worse :| TunerAccepts(baseline, worse, threshold) && worse < baseline;
    var prompt := v.nodes[id].promptTemplate;
    var revise: string -> string := text => text + "!";
    var eval: Evaluator := view => if view == v then Some(baseline) else Some(worse);
    assert WithPrompt(v, id, prompt) == v;
    assert Revised(revise, prompt, 0) == prompt && Revised(revise, prompt, 1) == prompt + "!";
    assert WithPrompt(v, id, prompt + "!").nodes[id].promptTemplate == prompt + "!" != prompt;
    assert PromptScore(eval, revise, v, id, 1) == Some(worse);
    assert IsTuning(eval, revise, threshold, v, id, 1, baseline) && !RevisionsNeverFall(eval, revise, v, id, 1);
  }

  datatype TuningResult = TuningResult(
    originalPrompt: string,
    optimizedPrompt: string,
    originalScore: real,
    finalScore: real,
    iterations: nat,
    improved: bool
  )

  datatype TuningError = NodeNotFound | BaselineFailed

  class TextGradOptimizer {
    const evaluator: Evaluator
    const revise: string -> string  // one gradient step: a function of the prompt alone
    const maxIterations: int
    const threshold: real

    constructor (evaluator: Evaluator, revise: string -> string, maxIterations: int, threshold: real)
      ensures this.evaluator == evaluator && this.revise == revise
      ensures this.maxIterations == maxIterations && this.threshold == threshold
    {
      this.evaluator, this.revise := evaluator, revise;
      this.maxIterations, this.threshold := maxIterations, threshold;
    }

    method SetPrompt(graph: WorkflowGraph, id: string, prompt: string)
      requires graph.Valid() && id in graph.nodes
      modifies graph.nodes[id]
      ensures graph.Valid() && graph.nodes[id].promptTemplate == prompt
      ensures graph.View() == WithPrompt(old(graph.View()), id, prompt)
    {
      hide MetricsOf, WorkflowGraph.View, WorkflowGraph.NodeViews;
      var n := graph.nodes[id];
      n.promptTemplate := prompt;
      graph.NodeWritten(id);
    }

    lemma PromptOverwritten(v: GraphView, id: string, a: string, b: string)
      requires id in v.nodes
      ensures WithPrompt(WithPrompt(v, id, a), id, b) == WithPrompt(v, id, b)
    {
      assert WithPrompt(WithPrompt(v, id, a), id, b).nodes == WithPrompt(v, id, b).nodes;
    }

    /** Puts `next` in place of `current`, and takes it back unless the score gains enough over `best`. */
    method TryPrompt(graph: WorkflowGraph, id: string, current: string, next: string, best: real)
      returns (taken: bool, score: real)
      requires graph.Valid() && id in graph.nodes && graph.nodes[id].promptTemplate == current
      modifies graph.nodes[id]
      ensures graph.Valid() && graph.nodes[id].promptTemplate == if taken then next else current
      ensures graph.View() == WithPrompt(old(graph.View()), id, if taken then next else current)
      ensures var candidate := evaluator(WithPrompt(old(graph.View()), id, next));
              && (taken <==> candidate.Some? && TunerAccepts(best, candidate.value, threshold))
              && (taken ==> candidate == Some(score))
    {
      hide *;
      ViewFields(graph);
      SetPrompt(graph, id, next);
      PromptOverwritten(old(graph.View()), id, next, current);
      match evaluator(graph.View())
      case None =>
        SetPrompt(graph, id, current);
        return false, best;
      case Some(s) =>
        if TunerAccepts(best, s, threshold) {
          return true, s;
        }
        SetPrompt(graph, id, current);
        return false, best;
    }

    lemma NoRevisionYet(v: GraphView, id: string)
      requires id in v.nodes
      ensures WithPrompt(v, id, v.nodes[id].promptTemplate) == v
      ensures Revised(revise, v.nodes[id].promptTemplate, 0) == v.nodes[id].promptTemplate
      ensures PromptScore(evaluator, revise, v, id, 0) == evaluator(v)
      ensures RevisionsTaken(evaluator, revise, threshold, v, id, 0)
    {
      assert v.nodes[id := v.nodes[id].(promptTemplate := v.nodes[id].promptTemplate)] == v.nodes;
    }

    lemma NextRevision(v: GraphView, id: string, k: nat)
      requires id in v.nodes && PromptScore(evaluator, revise, v, id, k).Some?
      ensures var current := Revised(revise, v.nodes[id].promptTemplate, k);
              var best := PromptScore(evaluator, revise, v, id, k).value;
              var score := evaluator(WithPrompt(v, id, revise(current)));
              && Revised(revise, v.nodes[id].promptTemplate, k + 1) == revise(current)
              && PromptScore(evaluator, revise, v, id, k) == evaluator(WithPrompt(v, id, current))
              && PromptScore(evaluator, revise, v, id, k + 1) == score
              && (RevisionTaken(evaluator, revise, threshold, v, id, k + 1)
                  <==> revise(current) != current && score.Some? && TunerAccepts(best, score.value, threshold))
    {
    }

    /** The loop of OptimizePrompt: revisions are tried until one changes nothing, or the budget runs out. */
    method Climb(graph: WorkflowGraph, nodeID: string, original: string, baseline: real, ghost v: GraphView)
      returns (current: string, best: real, kept: nat)
      requires graph.Valid() && v == graph.View() && nodeID in graph.nodes && nodeID in v.nodes
      requires original == graph.nodes[nodeID].promptTemplate == v.nodes[nodeID].promptTemplate
      requires evaluator(v) == Some(baseline)
      modifies graph.nodes[nodeID]
      ensures graph.Valid()
      ensures kept <= (if maxIterations < 0 then 0 else maxIterations)
      ensures current == Revised(revise, original, kept)
      ensures graph.View() == WithPrompt(v, nodeID, current)
      ensures evaluator(graph.View()) == Some(best)
      ensures RevisionsTaken(evaluator, revise, threshold, v, nodeID, kept)
      ensures kept < maxIterations ==> !RevisionTaken(evaluator, revise, threshold, v, nodeID, kept + 1)
    {
      hide *;
      current, best, kept := original, baseline, 0;
      NoRevisionYet(v, nodeID);
      var iter := 0;
      while iter < maxIterations
        invariant graph.Valid() && unchanged(graph) && graph.nodes[nodeID].promptTemplate == current
        invariant kept <= iter <= (if maxIterations < 0 then 0 else maxIterations)
        invariant current == Revised(revise, original, kept)
        invariant graph.View() == WithPrompt(v, nodeID, current)
        invariant PromptScore(evaluator, revise, v, nodeID, kept) == Some(best)
        invariant RevisionsTaken(evaluator, revise, threshold, v, nodeID, kept)
        invariant kept < iter ==> !RevisionTaken(evaluator, revise, threshold, v, nodeID, kept + 1)
      {
        var next := revise(current);
        NextRevision(v, nodeID, kept);
        if next == current {
          break;
        }
        var taken, score := TryPrompt(graph, nodeID, current, next, best);
        PromptOverwritten(v, nodeID, current, next);
        PromptOverwritten(v, nodeID, current, current);
        if taken {
          OneMoreRevision(evaluator, revise, threshold, v, nodeID, kept);
          current, best, kept := next, score, iter + 1;
        }
        iter := iter + 1;
      }
      NextRevision(v, nodeID, kept);
    }

    /**
     Revises one node's prompt, keeping a revision only if it gains enough. The result counts exactly the
     revisions kept, the graph carries exactly that prompt, and nothing else in it changes.
     */
    method OptimizePrompt(graph: WorkflowGraph, nodeID: string) returns (r: Result<TuningResult, TuningError>)
      requires graph.Valid()
      modifies if nodeID in graph.nodes then {graph.nodes[nodeID]} else {}
      ensures graph.Valid()
      ensures r.Err? ==> graph.View() == old(graph.View())
      ensures nodeID !in graph.nodes <==> r == Err(NodeNotFound)
      ensures nodeID in graph.nodes ==>
                (old(evaluator(graph.View())).None? <==> r == Err(BaselineFailed))
      ensures r.Ok? ==>
                && var v := old(graph.View());
                && nodeID in v.nodes
                && r.value.iterations <= (if maxIterations < 0 then 0 else maxIterations)
                && RevisionsTaken(evaluator, revise, threshold, v, nodeID, r.value.iterations)
                && (r.value.iterations < maxIterations ==>
                      !RevisionTaken(evaluator, revise, threshold, v, nodeID, r.value.iterations + 1))
                && r.value.originalPrompt == v.nodes[nodeID].promptTemplate
                && r.value.optimizedPrompt == Revised(revise, r.value.originalPrompt, r.value.iterations)
                && graph.View() == WithPrompt(v, nodeID, r.value.optimizedPrompt)
                && evaluator(v) == Some(r.value.originalScore)
                && evaluator(graph.View()) == Some(r.value.finalScore)
                && r.value.improved == (r.value.finalScore > r.value.originalScore)
    {
      if nodeID !in graph.nodes {
        return Err(NodeNotFound);
      }
      var original := graph.nodes[nodeID].promptTemplate;
      ghost var v := graph.View();
      var first := evaluator(graph.View());
      if first.None? {
        return Err(BaselineFailed);
      }
      var baseline := first.value;
      var current, best, kept := Climb(graph, nodeID, original, baseline, v);
      return Ok(TuningResult(original, current, baseline, best, kept, best > baseline));
    }
  }
}
