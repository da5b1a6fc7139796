/**
 The workflow graph of pkg/evolver: nodes are heap objects that hold their tool list and their
 configuration by reference, edges are a list that may repeat an entry. Map iteration is in
 arbitrary order. Time stamps are not modelled.
 */
module WorkflowGraphs {
  import opened Collections
  import opened Wrappers
  import opened GraphTheory

  datatype GraphError =
    | NodeIDRequired
    | NodeNameRequired
    | NodeExists
    | NodeMissing
    | EdgeFromRequired
    | EdgeToRequired
    | EdgeFromMissing
    | EdgeToMissing
    | SelfEdge
    | NoNodes
    | EntryRequired
    | EntryMissing
    | CycleFound
    | UnreachableNode

  /** A string map that several holders may share. */
  class Dict {
    var entries: map<string, string>

    constructor (entries: map<string, string>)
      ensures this.entries == entries
    {
      this.entries := entries;
    }
  }

  /** The node struct as a caller passes it: its slice and its map are still the caller's. */
  datatype NodeSpec = NodeSpec(
    id: string,
    name: string,
    agentType: string,
    promptTemplate: string,
    toolIDs: array?<string>,
    modelTier: string,
    timeout: int,
    config: Dict?
  )

  /** What can be observed of a node; a nil and an empty tool list are the same. */
  datatype NodeView = NodeView(
    id: string,
    name: string,
    agentType: string,
    promptTemplate: string,
    tools: seq<string>,
    modelTier: string,
    timeout: int,
    config: Option<map<string, string>>
  )

  /** What a node added from `s` shows; a missing configuration becomes an empty one. */
  ghost function ViewOfSpec(s: NodeSpec): NodeView
    reads s.toolIDs, s.config
  {
    NodeView(s.id, s.name, s.agentType, s.promptTemplate,
             if s.toolIDs == null then [] else s.toolIDs[..],
             s.modelTier, s.timeout,
             if s.config == null then Some(map[]) else Some(s.config.entries))
  }

  class WorkflowNode {
    const id: string
    var name: string
    var agentType: string
    var promptTemplate: string
    var toolIDs: array?<string>
    var modelTier: string
    var timeout: int
    var config: Dict?

    constructor (s: NodeSpec)
      ensures id == s.id && name == s.name && agentType == s.agentType
      ensures promptTemplate == s.promptTemplate && toolIDs == s.toolIDs
      ensures modelTier == s.modelTier && timeout == s.timeout && config == s.config
    {
      id := s.id;
      name, agentType, promptTemplate := s.name, s.agentType, s.promptTemplate;
      toolIDs, modelTier, timeout, config := s.toolIDs, s.modelTier, s.timeout, s.config;
    }

    /** The node's tool list and configuration, where it has them, are in `repr`. */
    ghost predicate Within(repr: set<object>)
      reads this
    {
      (toolIDs != null ==> toolIDs in repr) && (config != null ==> config in repr)
    }

    ghost function Footprint(): set<object>
      reads this
    {
      {this} + (if toolIDs == null then {} else {toolIDs}) + (if config == null then {} else {config})
    }

    function View(): NodeView
      reads this, toolIDs, config
    {
      NodeView(id, name, agentType, promptTemplate,
               if toolIDs == null then [] else toolIDs[..],
               modelTier, timeout,
               if config == null then None else Some(config.entries))
    }

    /** The per-node part of Clone: a tool list or a configuration is never shared with the copy. */
    method Copy() returns (nc: WorkflowNode)
      ensures fresh(nc.Footprint())
      ensures nc.View() == View()
      ensures nc.id == id
    {
      var tools: array?<string> := null;
      if toolIDs != null && toolIDs.Length > 0 {
        var src := toolIDs;
        tools := new string[src.Length](i requires 0 <= i < src.Length reads src => src[i]);
        assert tools[..] == src[..];
      }
      var cfg: Dict? := null;
      if config != null {
        cfg := new Dict(config.entries);
      }
      nc := new WorkflowNode(NodeSpec(id, name, agentType, promptTemplate, tools, modelTier, timeout, cfg));
    }
  }

  datatype Metrics = Metrics(totalRuns: int, successRuns: int, failedRuns: int, avgLatencyMs: real, avgCost: real)

  datatype Run = Run(success: bool, latencyMs: real, cost: real)

  /** The metrics a sequence of runs amounts to, computed from scratch. */
  ghost function MetricsOf(runs: seq<Run>): Metrics {
    Metrics(|runs|, Successes(runs), |runs| - Successes(runs),
            if runs == [] then 0.0 else TotalLatency(runs) / |runs| as real,
            if runs == [] then 0.0 else TotalCost(runs) / |runs| as real)
  }

  ghost function Successes(runs: seq<Run>): nat {
    if runs == [] then 0 else Successes(runs[..|runs| - 1]) + (if runs[|runs| - 1].success then 1 else 0)
  }

  ghost function TotalLatency(runs: seq<Run>): real {
    if runs == [] then 0.0 else TotalLatency(runs[..|runs| - 1]) + runs[|runs| - 1].latencyMs
  }

  ghost function TotalCost(runs: seq<Run>): real {
    if runs == [] then 0.0 else TotalCost(runs[..|runs| - 1]) + runs[|runs| - 1].cost
  }

  /** One run folded into the metrics in place: counters up by one, means corrected. */
  function AfterRun(m: Metrics, r: Run): Metrics
    requires m.totalRuns >= 0
  {
    var n := (m.totalRuns + 1) as real;
    Metrics(
      m.totalRuns + 1,
      m.successRuns + (if r.success then 1 else 0),
      m.failedRuns + (if r.success then 0 else 1),
      (m.avgLatencyMs * (n - 1.0) + r.latencyMs) / n,
      (m.avgCost * (n - 1.0) + r.cost) / n)
  }

  lemma RunningMean(total: real, n: int)
    requires n >= 1
    ensures total / n as real * ((n + 1) as real - 1.0) == total
  {
    assert (n + 1) as real - 1.0 == n as real;
  }

  /** Metrics corrected in place after each run are those of the whole run history. */
  lemma AfterRunIsMetricsOf(runs: seq<Run>, r: Run)
    ensures AfterRun(MetricsOf(runs), r) == MetricsOf(runs + [r])
  {
    assert (runs + [r])[..|runs|] == runs;
    assert MetricsOf(runs + [r]).avgLatencyMs == (TotalLatency(runs) + r.latencyMs) / (|runs| + 1) as real;
    if runs != [] {
      RunningMean(TotalLatency(runs), |runs|);
      RunningMean(TotalCost(runs), |runs|);
    }
  }

  datatype GraphView = GraphView(
    id: string,
    name: string,
    description: string,
    version: int,
    nodes: map<string, NodeView>,
    edges: seq<Edge>,
    entry: string,
    metrics: Metrics
  )

  /** A non-empty acyclic graph whose entry node exists and reaches every node. */
  ghost predicate SoundDag(nodes: set<string>, es: seq<Edge>, entry: string) {
    && nodes != {}
    && entry in nodes
    && !Cyclic(es)
    && forall n :: n in nodes ==> Reaches(es, entry, n)
  }

  ghost predicate PassesValidation(v: GraphView) {
    SoundDag(v.nodes.Keys, v.edges, v.entry)
  }

  // ------------------------------------------- the two tables of Kahn's sort

  /** How many edges enter `v` from a node outside `done`, counting repeated edges. */
  ghost function Incoming(es: seq<Edge>, done: set<string>, v: string): nat {
    if es == [] then 0
    else
      var e := es[|es| - 1];
      Incoming(es[..|es| - 1], done, v) + (if e.to == v && e.from !in done then 1 else 0)
  }

  /** The targets of the edges that leave `u`, in edge order, with repetitions. */
  ghost function Targets(es: seq<Edge>, u: string): seq<string> {
    if es == [] then []
    else
      var e := es[|es| - 1];
      Targets(es[..|es| - 1], u) + (if e.from == u then [e.to] else [])
  }

  lemma {:induction false} TargetsAreEdges(es: seq<Edge>, u: string, v: string)
    ensures v in Targets(es, u) <==> HasEdge(es, u, v)
  {
    if es != [] {
      var front := es[..|es| - 1];
      TargetsAreEdges(front, u, v);
      if HasEdge(front, u, v) {
        var i :| 0 <= i < |front| && front[i].from == u && front[i].to == v;
        assert es[i] == front[i];
      }
      if HasEdge(es, u, v) {
        var i :| 0 <= i < |es| && es[i].from == u && es[i].to == v;
        assert i < |front| ==> front[i] == es[i];
      }
    }
  }

  lemma {:induction false} NoIncoming(es: seq<Edge>, done: set<string>, v: string)
    ensures Incoming(es, done, v) == 0 <==> forall u :: HasEdge(es, u, v) ==> u in done
  {
    if es != [] {
      var front := es[..|es| - 1];
      var e := es[|es| - 1];
      NoIncoming(front, done, v);
      forall u | HasEdge(front, u, v) ensures HasEdge(es, u, v) {
        var i :| 0 <= i < |front| && front[i].from == u && front[i].to == v;
        assert es[i] == front[i];
      }
      forall u | HasEdge(es, u, v) ensures HasEdge(front, u, v) || (e.from == u && e.to == v) {
        var i :| 0 <= i < |es| && es[i].from == u && es[i].to == v;
        assert i < |front| ==> front[i] == es[i];
      }
      if e.to == v {
        assert es[|es| - 1] == e;
        assert HasEdge(es, e.from, v);
      }
    }
  }

  /** Finishing `u` takes as many incoming edges off `v` as there are edges from `u` to `v`. */
  lemma {:induction false} IncomingAfterFinishing(es: seq<Edge>, done: set<string>, u: string, v: string)
    requires u !in done
    ensures Incoming(es, done, v) == Incoming(es, done + {u}, v) + multiset(Targets(es, u))[v]
  {
    if es != [] {
      IncomingAfterFinishing(es[..|es| - 1], done, u, v);
    }
  }

  function AdjacentTo(adj: map<string, seq<string>>, u: string): seq<string> {
    if u in adj then adj[u] else []
  }

  // ------------------------------------------------ the rounds of Kahn's sort

  /** Nothing is queued twice; exactly the nodes with no unfinished predecessor are queued or done. */
  ghost predicate KahnInvariant(nodes: set<string>, es: seq<Edge>, order: seq<string>, queue: seq<string>,
                                inDegree: map<string, int>) {
    && EndpointsIn(nodes, es)
    && inDegree.Keys == nodes
    && Distinct(order + queue)
    && (forall v :: v in order || v in queue <==> v in nodes && inDegree[v] == 0)
    && (forall v :: v in nodes ==> inDegree[v] == Incoming(es, Elements(order), v))
    && Forward(es, order)
  }

  /** Every count is down by the number of times its node occurs in `next`. */
  ghost predicate Lowered(before: map<string, int>, after: map<string, int>, next: seq<string>) {
    after.Keys == before.Keys && forall v :: v in before ==> after[v] == before[v] - multiset(next)[v]
  }

  /** `released` lists the nodes whose count went down to zero, each once. */
  ghost predicate Listed(before: map<string, int>, after: map<string, int>, released: seq<string>)
    requires after.Keys == before.Keys
  {
    Distinct(released) && forall v :: v in released <==> v in before && before[v] > 0 && after[v] == 0
  }

  ghost predicate Released(before: map<string, int>, after: map<string, int>, next: seq<string>, released: seq<string>) {
    Lowered(before, after, next) && Listed(before, after, released)
  }

  lemma LowerOne(before: map<string, int>, inDegree: map<string, int>, next: seq<string>, k: nat)
    requires k < |next| && Lowered(before, inDegree, next[..k])
    requires next[k] in before && before[next[k]] >= multiset(next)[next[k]]
    ensures inDegree[next[k]] >= 1
    ensures Lowered(before, inDegree[next[k] := inDegree[next[k]] - 1], next[..k + 1])
  {
    assert next[..k + 1] == next[..k] + [next[k]];
    assert next == next[..k + 1] + next[k + 1..];
  }

  lemma ListOne(before: map<string, int>, inDegree: map<string, int>, v: string, released: seq<string>)
    requires inDegree.Keys == before.Keys && Listed(before, inDegree, released)
    requires v in before && before[v] >= inDegree[v] >= 1
    ensures var left := inDegree[v := inDegree[v] - 1];
            Listed(before, left, if left[v] == 0 then released + [v] else released)
  {
    assert v !in released;
    forall x ensures x in released + [v] <==> x in released || x == v {}
  }

  /** The inner loop: take one incoming edge off each target, and release the targets that have none left. */
  method Release(next: seq<string>, before: map<string, int>) returns (inDegree: map<string, int>, released: seq<string>)
    requires forall v :: v in next ==> v in before
    requires forall v :: v in before ==> before[v] >= multiset(next)[v]
    ensures Released(before, inDegree, next, released)
  {
    inDegree, released := before, [];
    for k := 0 to |next|
      invariant Released(before, inDegree, next[..k], released)
    {
      var v := next[k];
      LowerOne(before, inDegree, next, k);
      ListOne(before, inDegree, v, released);
      inDegree := inDegree[v := inDegree[v] - 1];
      if inDegree[v] == 0 {
        released := released + [v];
      }
    }
    assert next[..|next|] == next;
  }

  method Sources(inDegree: map<string, int>) returns (queue: seq<string>)
    ensures Distinct(queue)
    ensures forall v :: v in queue <==> v in inDegree && inDegree[v] == 0
  {
    queue := [];
    var unseen := inDegree.Keys;
    while unseen != {}
      invariant unseen <= inDegree.Keys
      invariant Distinct(queue)
      invariant forall v :: v in queue <==> v in inDegree && v !in unseen && inDegree[v] == 0
    {
      var v :| v in unseen;
      unseen := unseen - {v};
      if inDegree[v] == 0 {
        queue := queue + [v];
      }
    }
  }

  lemma FirstQueuedIsUnfinished(order: seq<string>, queue: seq<string>)
    requires Distinct(order + queue) && queue != []
    ensures queue[0] !in order && queue[0] !in Elements(order)
  {
    forall i | 0 <= i < |order| ensures order[i] != queue[0] {
      assert (order + queue)[i] != (order + queue)[|order|];
    }
  }

  lemma KahnBeforeRelease(nodes: set<string>, es: seq<Edge>, order: seq<string>, queue: seq<string>,
                          inDegree: map<string, int>)
    requires KahnInvariant(nodes, es, order, queue, inDegree) && queue != []
    ensures queue[0] in nodes && queue[0] !in Elements(order)
    ensures forall v :: v in Targets(es, queue[0]) ==> v in inDegree
    ensures forall v :: v in inDegree ==>
              inDegree[v] == Incoming(es, Elements(order) + {queue[0]}, v) + multiset(Targets(es, queue[0]))[v]
  {
    var u := queue[0];
    FirstQueuedIsUnfinished(order, queue);
    forall v | v in Targets(es, u) ensures v in inDegree {
      TargetsAreEdges(es, u, v);
    }
    forall v | v in inDegree
      ensures inDegree[v] == Incoming(es, Elements(order) + {u}, v) + multiset(Targets(es, u))[v]
    {
      IncomingAfterFinishing(es, Elements(order), u, v);
    }
  }

  lemma AppendKeepsForward(es: seq<Edge>, order: seq<string>, u: string)
    requires Forward(es, order) && u !in order
    requires forall v :: v in order || v == u ==> Incoming(es, Elements(order), v) == 0
    ensures Forward(es, order + [u])
  {
    var longer := order + [u];
    forall i, j | 0 <= i < |longer| && 0 <= j < |longer| && HasEdge(es, longer[i], longer[j])
      ensures i < j
    {
      NoIncoming(es, Elements(order), longer[j]);
      assert longer[i] in Elements(order);
    }
  }

  lemma ReleaseKeepsDistinct(order: seq<string>, queue: seq<string>, released: seq<string>)
    requires Distinct(order + queue) && queue != [] && Distinct(released)
    requires forall v :: v in released ==> v !in order && v !in queue
    ensures Distinct((order + [queue[0]]) + (queue[1..] + released))
  {
    var waiting := order + queue;
    assert (order + [queue[0]]) + (queue[1..] + released) == waiting + released;
    forall i, j | 0 <= i < j < |waiting + released| ensures (waiting + released)[i] != (waiting + released)[j] {
      if i < |waiting| <= j {
        assert waiting[i] in order || waiting[i] in queue;
        assert released[j - |waiting|] in released;
      }
    }
  }

  /** One round of the main loop keeps the invariant. */
  lemma KahnStep(nodes: set<string>, es: seq<Edge>, order: seq<string>, queue: seq<string>,
                 before: map<string, int>, after: map<string, int>, released: seq<string>)
    requires KahnInvariant(nodes, es, order, queue, before) && queue != []
    requires Released(before, after, Targets(es, queue[0]), released)
    ensures KahnInvariant(nodes, es, order + [queue[0]], queue[1..] + released, after)
    ensures Elements(order + [queue[0]]) == Elements(order) + {queue[0]}
    ensures queue[0] in nodes && queue[0] !in Elements(order)
  {
    var u := queue[0];
    KahnBeforeRelease(nodes, es, order, queue, before);
    AppendKeepsForward(es, order, u);
    ReleaseKeepsDistinct(order, queue, released);
    assert Elements(order + [u]) == Elements(order) + {u};
    assert queue == [u] + queue[1..];
  }

  lemma KahnComplete(nodes: set<string>, es: seq<Edge>, order: seq<string>, inDegree: map<string, int>)
    requires KahnInvariant(nodes, es, order, [], inDegree) && |order| == |nodes|
    ensures TopologicalOrder(nodes, es, order) && !Cyclic(es)
  {
    assert order + [] == order;
    DistinctSize(order);
    SubsetOfSameSize(Elements(order), nodes);
    TopologicalOrderExcludesCycles(nodes, es, order);
  }

  lemma KahnStuck(nodes: set<string>, es: seq<Edge>, order: seq<string>, inDegree: map<string, int>)
    requires KahnInvariant(nodes, es, order, [], inDegree) && |order| != |nodes|
    ensures Cyclic(es)
  {
    hide *;
    var stuck := nodes - Elements(order);
    KahnStuckSet(nodes, es, order, inDegree);
    assert nodes == Elements(order) + stuck;
    StuckSetHoldsCycle(es, stuck);
  }

  lemma KahnStuckSet(nodes: set<string>, es: seq<Edge>, order: seq<string>, inDegree: map<string, int>)
    requires KahnInvariant(nodes, es, order, [], inDegree)
    ensures Elements(order) <= nodes && |Elements(order)| == |order|
    ensures EachHasPredecessorIn(es, nodes - Elements(order))
  {
    assert order + [] == order;
    DistinctSize(order);
    forall v | v in nodes - Elements(order) ensures HasPredecessorIn(es, nodes - Elements(order), v) {
      KahnStuckNode(nodes, es, order, inDegree, v);
    }
  }

  lemma KahnStuckNode(nodes: set<string>, es: seq<Edge>, order: seq<string>, inDegree: map<string, int>, v: string)
    requires KahnInvariant(nodes, es, order, [], inDegree)
    requires v in nodes && v !in order
    ensures HasPredecessorIn(es, nodes - Elements(order), v)
  {
    NoIncoming(es, Elements(order), v);
    assert Incoming(es, Elements(order), v) != 0;
    var u :| HasEdge(es, u, v) && u !in Elements(order);
    assert u in nodes;
  }

  /** When the queue runs dry the order is complete exactly if there is no cycle. */
  lemma KahnEnd(nodes: set<string>, es: seq<Edge>, order: seq<string>, inDegree: map<string, int>)
    requires KahnInvariant(nodes, es, order, [], inDegree)
    ensures |order| == |nodes| <==> !Cyclic(es)
    ensures |order| == |nodes| ==> TopologicalOrder(nodes, es, order)
  {
    if |order| == |nodes| {
      KahnComplete(nodes, es, order, inDegree);
    } else {
      KahnStuck(nodes, es, order, inDegree);
    }
  }

  // ----------------------------------------------------------- node removal

  /** The edges that do not touch `id`, in order. */
  function EdgesWithout(es: seq<Edge>, id: string): seq<Edge> {
    if es == [] then []
    else
      var e := es[|es| - 1];
      EdgesWithout(es[..|es| - 1], id) + (if e.from != id && e.to != id then [e] else [])
  }

  method RemainingEdges(es: seq<Edge>, id: string) returns (newEdges: seq<Edge>)
    ensures newEdges == EdgesWithout(es, id)
    ensures forall k :: 0 <= k < |newEdges| ==> newEdges[k] in es && newEdges[k].from != id && newEdges[k].to != id
  {
    newEdges := [];
    for i := 0 to |es|
      invariant newEdges == EdgesWithout(es[..i], id)
      invariant forall k :: 0 <= k < |newEdges| ==> newEdges[k] in es && newEdges[k].from != id && newEdges[k].to != id
    {
      assert es[..i + 1][..i] == es[..i];
      if es[i].from != id && es[i].to != id {
        newEdges := newEdges + [es[i]];
      }
    }
    assert es[..|es|] == es;
  }

  ghost function WithNode(v: GraphView, n: NodeView): GraphView {
    v.(nodes := v.nodes[n.id := n])
  }

  ghost function WithoutNode(v: GraphView, id: string): GraphView {
    v.(nodes := v.nodes - {id}, edges := EdgesWithout(v.edges, id), entry := if v.entry == id then "" else v.entry)
  }

  lemma {:induction false} EdgesWithoutKeepsOthers(es: seq<Edge>, id: string, a: string, b: string)
    ensures HasEdge(EdgesWithout(es, id), a, b) <==> HasEdge(es, a, b) && a != id && b != id
  {
    if es != [] {
      var front := es[..|es| - 1];
      var e := es[|es| - 1];
      var rest := EdgesWithout(front, id);
      var all := EdgesWithout(es, id);
      EdgesWithoutKeepsOthers(front, id, a, b);
      if HasEdge(all, a, b) {
        var i :| 0 <= i < |all| && all[i].from == a && all[i].to == b;
        if i < |rest| {
          assert rest[i] == all[i];
          var j :| 0 <= j < |front| && front[j].from == a && front[j].to == b;
          assert es[j] == front[j];
        } else {
          assert es[|es| - 1] == e;
        }
      }
      if HasEdge(es, a, b) && a != id && b != id {
        var i :| 0 <= i < |es| && es[i].from == a && es[i].to == b;
        if i < |front| {
          assert front[i] == es[i];
          var j :| 0 <= j < |rest| && rest[j].from == a && rest[j].to == b;
          assert all[j] == rest[j];
        } else {
          assert all[|rest|] == e;
        }
      }
    }
  }

  ghost predicate IsLeaf(es: seq<Edge>, id: string) {
    forall v :: !HasEdge(es, id, v)
  }

  /** Walks that do not end in a removed leaf survive its removal. */
  lemma WalkAvoidsLeaf(es: seq<Edge>, leaf: string, p: seq<string>, a: string, b: string)
    requires IsLeaf(es, leaf) && b != leaf && WalkBetween(es, p, a, b)
    ensures WalkBetween(EdgesWithout(es, leaf), p, a, b)
  {
    forall i | 0 <= i < |p| - 1 ensures HasEdge(EdgesWithout(es, leaf), p[i], p[i + 1]) {
      assert HasEdge(es, p[i], p[i + 1]);
      if i + 1 < |p| - 1 {
        assert HasEdge(es, p[i + 1], p[i + 2]);
      }
      EdgesWithoutKeepsOthers(es, leaf, p[i], p[i + 1]);
    }
  }

  lemma FewerEdgesStayAcyclic(es: seq<Edge>, fewer: seq<Edge>)
    requires !Cyclic(es)
    requires forall a, b :: HasEdge(fewer, a, b) ==> HasEdge(es, a, b)
    ensures !Cyclic(fewer)
  {
    if p :| IsCycle(fewer, p) {
      forall i | 0 <= i < |p| - 1 ensures HasEdge(es, p[i], p[i + 1]) {
        assert HasEdge(fewer, p[i], p[i + 1]);
      }
      assert IsCycle(es, p);
    }
  }

  /** Removing a leaf other than the entry keeps a graph valid. */
  lemma RemovingLeafKeepsValidation(v: GraphView, leaf: string)
    requires PassesValidation(v) && IsLeaf(v.edges, leaf) && leaf != v.entry
    ensures PassesValidation(WithoutNode(v, leaf))
  {
    var w := WithoutNode(v, leaf);
    assert v.entry in w.nodes.Keys;
    forall a, b | HasEdge(w.edges, a, b) ensures HasEdge(v.edges, a, b) {
      EdgesWithoutKeepsOthers(v.edges, leaf, a, b);
    }
    FewerEdgesStayAcyclic(v.edges, w.edges);
    forall n | n in w.nodes.Keys ensures Reaches(w.edges, w.entry, n) {
      var p :| WalkBetween(v.edges, p, v.entry, n);
      WalkAvoidsLeaf(v.edges, leaf, p, v.entry, n);
    }
  }

  /** Different nodes share no object. */
  ghost predicate SeparateNodes(nodes: map<string, WorkflowNode>)
    reads nodes.Values
  {
    forall j, k :: j in nodes && k in nodes && j != k ==>
      && nodes[j] != nodes[k]
      && (nodes[j].toolIDs == null || nodes[j].toolIDs != nodes[k].toolIDs)
      && (nodes[j].config == null || nodes[j].config != nodes[k].config)
  }

  /** The copies live in `repr`, share nothing, and show what the originals showed. */
  ghost predicate CopiesShow(copies: map<string, WorkflowNode>, repr: set<object>, shown: map<string, NodeView>)
    reads repr, copies.Values
  {
    && (forall k :: k in copies ==> k in shown && copies[k] in repr && copies[k].Within(repr) && copies[k].id == k)
    && SeparateNodes(copies)
    && (forall k :: k in copies ==> copies[k].View() == shown[k])
  }

  lemma OneMoreCopy(copies: map<string, WorkflowNode>, repr: set<object>, shown: map<string, NodeView>,
                    k: string, nc: WorkflowNode)
    requires CopiesShow(copies, repr, shown) && k !in copies
    requires k in shown && nc.id == k && nc.View() == shown[k] && nc.Footprint() !! repr
    ensures CopiesShow(copies[k := nc], repr + nc.Footprint(), shown)
  {
  }

  /** The nodes a depth-first search has marked. */
  class Visited {
    var marked: set<string>

    constructor ()
      ensures marked == {}
    {
      marked := {};
    }
  }

  class WorkflowGraph {
    var id: string
    var name: string
    var description: string
    var version: int
    var nodes: map<string, WorkflowNode>
    var edges: seq<Edge>
    var entryNodeID: string
    var metrics: Metrics
    ghost var runs: seq<Run>  // every run recorded so far
    ghost var Repr: set<object>  // this graph, its nodes, their tool lists and their configurations

    ghost predicate Valid()
      reads this, Repr
    {
      && this in Repr
      && (forall k :: k in nodes ==> nodes[k] in Repr && nodes[k].id == k && nodes[k].Within(Repr))
      && "" !in nodes
      && EndpointsIn(nodes.Keys, edges)
      && (forall i :: 0 <= i < |edges| ==> edges[i].from != edges[i].to)
      && metrics == MetricsOf(runs)
    }

    /** No two nodes share a tool list or a configuration. */
    ghost predicate Separated()
      requires Valid()
      reads this, Repr
    {
      SeparateNodes(nodes)
    }

    function View(): GraphView
      requires Valid()
      reads this, Repr
    {
      GraphView(id, name, description, version, NodeViews(), edges, entryNodeID, metrics)
    }

    function NodeViews(): map<string, NodeView>
      requires Valid()
      reads this, Repr
    {
      map k | k in nodes :: nodes[k].View()
    }

    constructor (id: string, name: string)
      ensures Valid() && Separated() && Repr == {this}
      ensures View() == GraphView(id, name, "", 0, map[], [], "", Metrics(0, 0, 0, 0.0, 0.0))
    {
      this.id, this.name, description, version := id, name, "", 0;
      nodes, edges, entryNodeID := map[], [], "";
      metrics, runs := Metrics(0, 0, 0, 0.0, 0.0), [];
      Repr := {this};
    }

    /** A graph with the fields of `g` over other node objects. */
    constructor Of(g: WorkflowGraph, nodes: map<string, WorkflowNode>, ghost repr: set<object>)
      requires g.Valid() && nodes.Keys == g.nodes.Keys
      requires forall k :: k in nodes ==> nodes[k] in repr && nodes[k].id == k && nodes[k].Within(repr)
      ensures Valid() && Repr == {this} + repr && this.nodes == nodes
      ensures id == g.id && name == g.name && description == g.description && version == g.version
      ensures edges == g.edges && entryNodeID == g.entryNodeID && metrics == g.metrics
      ensures SeparateNodes(nodes) ==> Separated()
    {
      id, name, description, version := g.id, g.name, g.description, g.version;
      this.nodes, edges, entryNodeID := nodes, g.edges, g.entryNodeID;
      metrics, runs := g.metrics, g.runs;
      Repr := {this} + repr;
    }

    /** When only the node `id` was written to, only its entry in the view differs. */
    twostate lemma NodeWritten(id: string)
      requires old(Valid()) && Valid() && nodes == old(nodes) && id in nodes
      requires unchanged(`id, `name, `description, `version, `metrics, `edges, `entryNodeID)
      requires forall k :: k in nodes && k != id ==> nodes[k].View() == old(nodes[k].View())
      ensures id in old(View()).nodes && nodes[id] in old(Repr) && old(nodes[id].View()) == old(View()).nodes[id]
      ensures View() == old(View()).(nodes := old(View()).nodes[id := nodes[id].View()])
    {
      assert NodeViews() == old(NodeViews())[id := nodes[id].View()];
    }

    /** The new node takes over the caller's tool list and configuration; a missing configuration is created. */
    method AddNode(node: NodeSpec) returns (err: Option<GraphError>)
      requires Valid()
      modifies `nodes, `Repr
      ensures Valid()
      ensures err == if node.id == "" then Some(NodeIDRequired)
                     else if node.name == "" then Some(NodeNameRequired)
                     else if node.id in old(nodes) then Some(NodeExists)
                     else None
      ensures err.Some? ==> nodes == old(nodes) && Repr == old(Repr) && View() == old(View())
      ensures err.None? ==> node.id in nodes && Repr == old(Repr) + nodes[node.id].Footprint()
      ensures err.None? ==>
                && nodes == old(nodes)[node.id := nodes[node.id]]
                && fresh(nodes[node.id]) && nodes[node.id].toolIDs == node.toolIDs
                && (if node.config == null then fresh(nodes[node.id].config) else nodes[node.id].config == node.config)
                && View() == WithNode(old(View()), ViewOfSpec(node))
    {
      if node.id == "" {
        return Some(NodeIDRequired);
      }
      if node.name == "" {
        return Some(NodeNameRequired);
      }
      if node.id in nodes {
        return Some(NodeExists);
      }
      var n := new WorkflowNode(node);
      if n.config == null {
        n.config := new Dict(map[]);
      }
      nodes := nodes[node.id := n];
      Repr := Repr + n.Footprint();
      InsertionShows(n);
      return None;
    }

    twostate lemma InsertionShows(new n: WorkflowNode)
      requires old(Valid()) && Valid() && unchanged(old(Repr) - {this})
      requires n.id !in old(nodes) && nodes == old(nodes)[n.id := n]
      requires unchanged(`id, `name, `description, `version, `metrics, `edges, `entryNodeID)
      ensures View() == WithNode(old(View()), n.View())
    {
      assert NodeViews() == old(NodeViews())[n.id := n.View()];
    }

    /** Edges may repeat, but both ends must exist and differ. */
    method AddEdge(edge: Edge) returns (err: Option<GraphError>)
      requires Valid()
      modifies `edges
      ensures Valid()
      ensures err == if edge.from == "" then Some(EdgeFromRequired)
                     else if edge.to == "" then Some(EdgeToRequired)
                     else if edge.from !in nodes then Some(EdgeFromMissing)
                     else if edge.to !in nodes then Some(EdgeToMissing)
                     else if edge.from == edge.to then Some(SelfEdge)
                     else None
      ensures edges == if err.Some? then old(edges) else old(edges) + [edge]
      ensures View() == old(View()).(edges := edges)
    {
      if edge.from == "" {
        return Some(EdgeFromRequired);
      }
      if edge.to == "" {
        return Some(EdgeToRequired);
      }
      if edge.from !in nodes {
        return Some(EdgeFromMissing);
      }
      if edge.to !in nodes {
        return Some(EdgeToMissing);
      }
      if edge.from == edge.to {
        return Some(SelfEdge);
      }
      edges := edges + [edge];
      return None;
    }

    twostate lemma RemovalShows(id: string)
      requires old(Valid()) && Valid() && unchanged(old(Repr) - {this})
      requires nodes == old(nodes) - {id} && edges == EdgesWithout(old(edges), id)
      requires entryNodeID == if old(entryNodeID) == id then "" else old(entryNodeID)
      requires unchanged(`id, `name, `description, `version, `metrics, `Repr)
      ensures View() == WithoutNode(old(View()), id)
    {
      assert NodeViews() == old(NodeViews()) - {id};
    }

    /** Takes the node out together with every edge that touches it. */
    method RemoveNode(id: string) returns (err: Option<GraphError>)
      requires Valid()
      modifies `nodes, `edges, `entryNodeID
      ensures Valid()
      ensures err == if id in old(nodes) then None else Some(NodeMissing)
      ensures err.Some? ==> View() == old(View())
      ensures err.None? ==> View() == WithoutNode(old(View()), id)
      ensures nodes == old(nodes) - {id} && nodes.Keys == old(nodes.Keys) - {id}
      ensures err.None? ==> entryNodeID == if old(entryNodeID) == id then "" else old(entryNodeID)
    {
      if id !in nodes {
        assert nodes - {id} == nodes && nodes.Keys - {id} == nodes.Keys;
        return Some(NodeMissing);
      }
      var newEdges := RemainingEdges(edges, id);
      nodes := nodes - {id};
      edges := newEdges;
      if entryNodeID == id {
        entryNodeID := "";
      }
      RemovalShows(id);
      return None;
    }

    /** Kahn's algorithm: an order exactly when there is no cycle, and then a topological one. */
    method TopologicalSortUnlocked() returns (order: seq<string>, err: Option<GraphError>)
      requires Valid()
      ensures err == if Cyclic(edges) then Some(CycleFound) else None
      ensures err.None? ==> TopologicalOrder(nodes.Keys, edges, order)
      ensures err.Some? ==> order == []
    {
      var inDegree, adj := DegreeTables();
      var queue := Sources(inDegree);
      order := [];
      assert Elements(order) == {};
      while queue != []
        invariant KahnInvariant(nodes.Keys, edges, order, queue, inDegree)
        decreases nodes.Keys - Elements(order)
      {
        var u := queue[0];
        var next := AdjacentTo(adj, u);
        KahnBeforeRelease(nodes.Keys, edges, order, queue, inDegree);
        ghost var before := inDegree;
        ghost var waiting := queue;
        var released;
        inDegree, released := Release(next, inDegree);
        KahnStep(nodes.Keys, edges, order, waiting, before, inDegree, released);
        queue := queue[1..] + released;
        order := order + [u];
      }
      KahnEnd(nodes.Keys, edges, order, inDegree);
      if |order| != |nodes| {
        return [], Some(CycleFound);
      }
      return order, None;
    }

    /** The in-degree and adjacency tables, one step per edge so that repeated edges count. */
    method DegreeTables() returns (inDegree: map<string, int>, adj: map<string, seq<string>>)
      requires Valid()
      ensures inDegree.Keys == nodes.Keys
      ensures forall v :: v in nodes ==> inDegree[v] == Incoming(edges, {}, v)
      ensures forall u :: AdjacentTo(adj, u) == Targets(edges, u)
    {
      inDegree := map v | v in nodes.Keys :: 0;
      adj := map[];
      for i := 0 to |edges|
        invariant inDegree.Keys == nodes.Keys
        invariant forall v :: v in nodes ==> inDegree[v] == Incoming(edges[..i], {}, v)
        invariant forall u :: AdjacentTo(adj, u) == Targets(edges[..i], u)
      {
        var e := edges[i];
        assert edges[..i + 1][..i] == edges[..i];
        assert forall v :: Incoming(edges[..i + 1], {}, v) == Incoming(edges[..i], {}, v) + (if e.to == v then 1 else 0);
        adj := adj[e.from := AdjacentTo(adj, e.from) + [e.to]];
        inDegree := inDegree[e.to := inDegree[e.to] + 1];
      }
      assert edges[..|edges|] == edges;
    }

    /** The exported sort, which answers an empty graph without running the algorithm. */
    method TopologicalSort() returns (order: seq<string>, err: Option<GraphError>)
      requires Valid()
      ensures err == if Cyclic(edges) then Some(CycleFound) else None
      ensures err.None? ==> TopologicalOrder(nodes.Keys, edges, order)
    {
      if |nodes| == 0 {
        assert nodes.Keys == {};
        TopologicalOrderExcludesCycles({}, edges, []);
        return [], None;
      }
      order, err := TopologicalSortUnlocked();
    }

    /** Depth-first search: everything newly marked is reachable, and no edge leaves the newly marked nodes unmarked. */
    method DfsReachable(from: string, visited: Visited)
      requires Valid() && from in nodes
      requires from !in visited.marked && visited.marked <= nodes.Keys
      modifies visited
      ensures old(visited.marked) + {from} <= visited.marked <= nodes.Keys
      ensures forall u :: u in visited.marked - old(visited.marked) ==> Reaches(edges, from, u)
      ensures forall u, v :: u in visited.marked - old(visited.marked) && HasEdge(edges, u, v) ==> v in visited.marked
      decreases nodes.Keys - visited.marked
    {
      visited.marked := visited.marked + {from};
      ReachesSelf(edges, from);
      for i := 0 to |edges|
        invariant old(visited.marked) + {from} <= visited.marked <= nodes.Keys
        invariant forall u :: u in visited.marked - old(visited.marked) ==> Reaches(edges, from, u)
        invariant forall u, v :: u in visited.marked - old(visited.marked) - {from} && HasEdge(edges, u, v) ==>
                    v in visited.marked
        invariant forall j :: 0 <= j < i && edges[j].from == from ==> edges[j].to in visited.marked
      {
        var e := edges[i];
        if e.from == from && e.to !in visited.marked {
          ghost var before := visited.marked;
          DfsReachable(e.to, visited);
          assert HasEdge(edges, from, e.to);
          forall u | u in visited.marked - before ensures Reaches(edges, from, u) {
            ReachesPrepend(edges, from, e.to, u);
          }
        }
      }
    }

    /** Accepts exactly the non-empty acyclic graphs whose entry exists and reaches every node. */
    method Validate() returns (err: Option<GraphError>)
      requires Valid()
      ensures err.None? <==> SoundDag(nodes.Keys, edges, entryNodeID)
      ensures err == if nodes.Keys == {} then Some(NoNodes)
                     else if entryNodeID == "" then Some(EntryRequired)
                     else if entryNodeID !in nodes then Some(EntryMissing)
                     else if Cyclic(edges) then Some(CycleFound)
                     else if exists n :: n in nodes && !Reaches(edges, entryNodeID, n) then Some(UnreachableNode)
                     else None
    {
      if |nodes| == 0 {
        assert nodes.Keys == {};
        return Some(NoNodes);
      }
      assert nodes.Keys != {};
      if entryNodeID == "" {
        return Some(EntryRequired);
      }
      if entryNodeID !in nodes {
        return Some(EntryMissing);
      }
      var order, sortErr := TopologicalSortUnlocked();
      if sortErr.Some? {
        return sortErr;
      }
      var reachable := new Visited();
      DfsReachable(entryNodeID, reachable);
      assert ClosedUnder(edges, reachable.marked);
      var unchecked := nodes.Keys;
      while unchecked != {}
        invariant unchecked <= nodes.Keys
        invariant forall n :: n in nodes.Keys - unchecked ==> n in reachable.marked
      {
        var n :| n in unchecked;
        unchecked := unchecked - {n};
        if n !in reachable.marked {
          assert !Reaches(edges, entryNodeID, n) by {
            if Reaches(edges, entryNodeID, n) {
              ClosedHoldsReachable(edges, reachable.marked, entryNodeID, n);
            }
          }
          return Some(UnreachableNode);
        }
      }
      return None;
    }

    method CloneNodes() returns (copies: map<string, WorkflowNode>, ghost repr: set<object>)
      requires Valid()
      ensures fresh(repr) && copies.Keys == nodes.Keys && CopiesShow(copies, repr, NodeViews())
      ensures SeparateNodes(copies)
      ensures forall k :: k in copies ==> copies[k] in repr && copies[k].id == k && copies[k].Within(repr)
      ensures forall k :: k in copies ==> copies[k].View() == nodes[k].View()
    {
      copies, repr := map[], {};
      ghost var shown := NodeViews();
      var uncopied := nodes.Keys;
      while uncopied != {}
        invariant uncopied <= nodes.Keys && copies.Keys == nodes.Keys - uncopied
        invariant fresh(repr) && CopiesShow(copies, repr, shown)
      {
        var k :| k in uncopied;
        uncopied := uncopied - {k};
        var nc := nodes[k].Copy();
        OneMoreCopy(copies, repr, shown, k, nc);
        copies := copies[k := nc];
        repr := repr + nc.Footprint();
      }
    }

    lemma CopyShows(clone: WorkflowGraph)
      requires Valid() && clone.Valid()
      requires clone.id == id && clone.name == name && clone.description == description && clone.version == version
      requires clone.edges == edges && clone.entryNodeID == entryNodeID && clone.metrics == metrics
      requires clone.nodes.Keys == nodes.Keys && forall k :: k in nodes ==> clone.nodes[k].View() == nodes[k].View()
      ensures clone.View() == View()
    {
      assert clone.NodeViews() == NodeViews();
    }

    /** A copy with the same content that shares no object with the original, nor any two of its nodes with each other. */
    method Clone() returns (clone: WorkflowGraph)
      requires Valid()
      ensures clone.Valid() && clone.Separated()
      ensures fresh(clone) && fresh(clone.Repr)
      ensures clone.View() == View()
      ensures clone.nodes.Keys == nodes.Keys && clone.edges == edges && clone.entryNodeID == entryNodeID
    {
      hide *;
      ghost var repr;
      var copies;
      copies, repr := CloneNodes();
      clone := new WorkflowGraph.Of(this, copies, repr);
      CopyShows(clone);
    }

    /** Keeps the counters and the two running means equal to those of the whole run history. */
    method RecordRun(success: bool, latencyMs: real, cost: real)
      requires Valid()
      modifies `metrics, `runs
      ensures Valid()
      ensures runs == old(runs) + [Run(success, latencyMs, cost)]
      ensures metrics == MetricsOf(runs)
      ensures View() == old(View()).(metrics := metrics)
    {
      var r := Run(success, latencyMs, cost);
      AfterRunIsMetricsOf(runs, r);
      metrics, runs := AfterRun(metrics, r), runs + [r];
      assert NodeViews() == old(NodeViews());
    }

    method SuccessRate() returns (rate: real)
      requires Valid()
      ensures 0.0 <= rate <= 1.0
      ensures rate * |runs| as real == Successes(runs) as real && (runs == [] ==> rate == 0.0)
    {
      SuccessesAtMost(runs);
      if metrics.totalRuns == 0 {
        return 0.0;
      }
      rate := metrics.successRuns as real / metrics.totalRuns as real;
    }

    lemma {:induction false} SuccessesAtMost(rs: seq<Run>)
      ensures Successes(rs) <= |rs|
    {
      if rs != [] {
        SuccessesAtMost(rs[..|rs| - 1]);
      }
    }
  }
}
