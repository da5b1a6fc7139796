/**
 Walks, cycles, reachability and topological orders over a list of directed edges.
 The list may hold the same edge several times, as a workflow graph's edge list may.
 */
module GraphTheory {
  import opened Collections

  datatype Edge = Edge(from: string, to: string, condition: string, dataMapping: map<string, string>)

  ghost predicate HasEdge(es: seq<Edge>, a: string, b: string) {
    exists i :: 0 <= i < |es| && es[i].from == a && es[i].to == b
  }

  ghost predicate IsWalk(es: seq<Edge>, p: seq<string>) {
    && |p| >= 1
    && forall i :: 0 <= i < |p| - 1 ==> HasEdge(es, p[i], p[i + 1])
  }

  ghost predicate WalkBetween(es: seq<Edge>, p: seq<string>, a: string, b: string) {
    IsWalk(es, p) && p[0] == a && p[|p| - 1] == b
  }

  ghost predicate Reaches(es: seq<Edge>, a: string, b: string) {
    exists p :: WalkBetween(es, p, a, b)
  }

  /** A closed walk with at least one edge. */
  ghost predicate IsCycle(es: seq<Edge>, p: seq<string>) {
    |p| >= 2 && IsWalk(es, p) && p[0] == p[|p| - 1]
  }

  ghost predicate Cyclic(es: seq<Edge>) {
    exists p :: IsCycle(es, p)
  }

  ghost predicate EndpointsIn(nodes: set<string>, es: seq<Edge>) {
    forall i :: 0 <= i < |es| ==> es[i].from in nodes && es[i].to in nodes
  }

  ghost predicate Forward(es: seq<Edge>, order: seq<string>) {
    forall i, j :: 0 <= i < |order| && 0 <= j < |order| && HasEdge(es, order[i], order[j]) ==> i < j
  }

  /** `order` lists every node exactly once and every edge goes forward in it. */
  ghost predicate TopologicalOrder(nodes: set<string>, es: seq<Edge>, order: seq<string>) {
    multiset(order) == multiset(nodes) && Forward(es, order)
  }

  // ---------------------------------------------------------------- counting

  /** A sequence over a set with fewer elements repeats one. */
  lemma {:induction false} Pigeonhole(p: seq<string>, s: set<string>) returns (i: nat, j: nat)
    requires forall k :: 0 <= k < |p| ==> p[k] in s
    requires |p| > |s|
    ensures i < j < |p| && p[i] == p[j]
  {
    var last := p[|p| - 1];
    var front := p[..|p| - 1];
    if last in front {
      i :| 0 <= i < |front| && front[i] == last;
      j := |p| - 1;
    } else {
      forall k | 0 <= k < |front| ensures front[k] in s - {last} {
        assert front[k] == p[k];
      }
      i, j := Pigeonhole(front, s - {last});
    }
  }

  // ------------------------------------------------------- cycles and orders

  lemma {:induction false} WalkAdvances(es: seq<Edge>, order: seq<string>, p: seq<string>, i: nat, j: nat)
    requires Forward(es, order) && Distinct(order)
    requires IsWalk(es, p) && forall k :: 0 <= k < |p| ==> p[k] in order
    requires i < |order| && j < |order| && order[i] == p[0] && order[j] == p[|p| - 1]
    ensures |p| >= 2 ==> i < j
  {
    if |p| >= 2 {
      var q := p[..|p| - 1];
      var m :| 0 <= m < |order| && order[m] == q[|q| - 1];
      WalkAdvances(es, order, q, i, m);
      assert HasEdge(es, p[|p| - 2], p[|p| - 1]);
      if |q| == 1 {
        assert i == m;
      }
    }
  }

  lemma WalkStaysIn(nodes: set<string>, es: seq<Edge>, p: seq<string>)
    requires EndpointsIn(nodes, es) && IsWalk(es, p) && |p| >= 2
    ensures forall k :: 0 <= k < |p| ==> p[k] in nodes
  {
    forall k | 0 <= k < |p| ensures p[k] in nodes {
      if k < |p| - 1 {
        assert HasEdge(es, p[k], p[k + 1]);
      } else {
        assert HasEdge(es, p[k - 1], p[k]);
      }
    }
  }

  /** A graph that has a topological order has no cycle. */
  lemma TopologicalOrderExcludesCycles(nodes: set<string>, es: seq<Edge>, order: seq<string>)
    requires EndpointsIn(nodes, es)
    requires Distinct(order) && Elements(order) == nodes && Forward(es, order)
    ensures !Cyclic(es)
  {
    if p :| IsCycle(es, p) {
      WalkStaysIn(nodes, es, p);
      forall k | 0 <= k < |p| ensures p[k] in order {
        assert p[k] in Elements(order);
      }
      var i :| 0 <= i < |order| && order[i] == p[0];
      WalkAdvances(es, order, p, i, i);
    }
  }

  ghost predicate HasPredecessorIn(es: seq<Edge>, r: set<string>, v: string) {
    exists u :: u in r && HasEdge(es, u, v)
  }

  ghost predicate EachHasPredecessorIn(es: seq<Edge>, r: set<string>) {
    forall v {:trigger HasPredecessorIn(es, r, v)} :: v in r ==> HasPredecessorIn(es, r, v)
  }

  /** A walk of `n` edges inside the set. */
  ghost predicate IsWalkWithin(es: seq<Edge>, r: set<string>, n: nat, p: seq<string>) {
    |p| == n + 1 && IsWalk(es, p) && forall k :: 0 <= k < |p| ==> p[k] in r
  }

  lemma {:induction false} BackwardWalk(es: seq<Edge>, r: set<string>, n: nat)
    requires r != {} && EachHasPredecessorIn(es, r)
    ensures exists p :: IsWalkWithin(es, r, n, p)
  {
    if n == 0 {
      var v :| v in r;
      assert IsWalkWithin(es, r, 0, [v]);
    } else {
      BackwardWalk(es, r, n - 1);
      var q :| IsWalkWithin(es, r, n - 1, q);
      assert HasPredecessorIn(es, r, q[0]);
      var u :| u in r && HasEdge(es, u, q[0]);
      var p := [u] + q;
      forall i | 0 <= i < |p| - 1 ensures HasEdge(es, p[i], p[i + 1]) {
        if i > 0 {
          assert HasEdge(es, q[i - 1], q[i]);
        }
      }
      assert IsWalkWithin(es, r, n, p);
    }
  }

  /** A non-empty set of nodes none of which lacks a predecessor in the set holds a cycle. */
  lemma StuckSetHoldsCycle(es: seq<Edge>, r: set<string>)
    requires r != {} && EachHasPredecessorIn(es, r)
    ensures Cyclic(es)
  {
    BackwardWalk(es, r, |r|);
    var p :| IsWalkWithin(es, r, |r|, p);
    var i, j := Pigeonhole(p, r);
    var c := p[i..j + 1];
    forall k | 0 <= k < |c| - 1 ensures HasEdge(es, c[k], c[k + 1]) {
      assert c[k] == p[i + k] && c[k + 1] == p[i + k + 1];
    }
    assert IsCycle(es, c);
  }

  // ------------------------------------------------------------ reachability

  lemma ReachesSelf(es: seq<Edge>, a: string)
    ensures Reaches(es, a, a)
  {
    assert WalkBetween(es, [a], a, a);
  }

  lemma ReachesPrepend(es: seq<Edge>, a: string, b: string, c: string)
    requires HasEdge(es, a, b) && Reaches(es, b, c)
    ensures Reaches(es, a, c)
  {
    var p :| WalkBetween(es, p, b, c);
    var q := [a] + p;
    forall i | 0 <= i < |q| - 1 ensures HasEdge(es, q[i], q[i + 1]) {
      if i > 0 {
        assert HasEdge(es, p[i - 1], p[i]);
      }
    }
    assert WalkBetween(es, q, a, c);
  }

  ghost predicate ClosedUnder(es: seq<Edge>, s: set<string>) {
    forall u, v :: u in s && HasEdge(es, u, v) ==> v in s
  }

  /** A set closed under the edges holds everything its members reach. */
  lemma ClosedHoldsReachable(es: seq<Edge>, s: set<string>, a: string, b: string)
    requires ClosedUnder(es, s) && a in s && Reaches(es, a, b)
    ensures b in s
  {
    var p :| WalkBetween(es, p, a, b);
    ClosedHoldsWalk(es, s, p);
  }

  lemma {:induction false} ClosedHoldsWalk(es: seq<Edge>, s: set<string>, p: seq<string>)
    requires ClosedUnder(es, s) && IsWalk(es, p) && p[0] in s
    ensures p[|p| - 1] in s
  {
    if |p| >= 2 {
      ClosedHoldsWalk(es, s, p[..|p| - 1]);
      assert HasEdge(es, p[|p| - 2], p[|p| - 1]);
    }
  }
}
