/**
 The bounded rendering of an accessibility tree, eval/miniwob/sidecar.py. The page arrives as a flat list of nodes
 naming their parents; it is emitted in tree order, one line a visible node, and cut to the observation budget.
 */
module AxTrees {
  import opened Wrappers

  const MAX_OBS_CHARS: nat := 8000
  const TRUNCATED := "\n...[truncated after decorative prune]"

  /** `caption` is the rendered role, name, value and bid; a node without a bid has the empty one. */
  datatype Node = Node(id: Option<string>, parent: Option<string>, caption: string, bid: string, ignored: bool)

  datatype Line = Line(text: string, actionable: bool)

  // ------------------------------------------------------------ the tree behind the list

  /** What the DevTools protocol promises of its node list. */
  ghost predicate IsIdentified(nodes: seq<Node>) {
    && (forall i :: 0 <= i < |nodes| ==> nodes[i].id.Some?)
    && (forall i, j :: 0 <= i < j < |nodes| ==> nodes[i].id != nodes[j].id)
  }

  /** A path of indices from a root down, each node the parent of the next. */
  ghost predicate IsPath(nodes: seq<Node>, path: seq<nat>) {
    && path != []
    && (forall k :: 0 <= k < |path| ==> path[k] < |nodes|)
    && nodes[path[0]].parent == None
    && (forall k :: 1 <= k < |path| ==> nodes[path[k]].parent == nodes[path[k - 1]].id)
  }

  lemma PathPrefix(nodes: seq<Node>, path: seq<nat>, n: nat)
    requires IsPath(nodes, path) && 1 <= n <= |path|
    ensures IsPath(nodes, path[..n])
  {
  }

  /** A node hangs on one path only. */
  lemma {:induction false} PathUnique(nodes: seq<Node>, p: seq<nat>, q: seq<nat>)
    requires IsIdentified(nodes) && IsPath(nodes, p) && IsPath(nodes, q)
    requires p[|p| - 1] == q[|q| - 1]
    ensures p == q
  {
    assert |p| > 1 ==> nodes[p[|p| - 2]].id.Some?;
    assert |q| > 1 ==> nodes[q[|q| - 2]].id.Some?;
    if |p| > 1 && |q| > 1 {
      PathPrefix(nodes, p, |p| - 1);
      PathPrefix(nodes, q, |q| - 1);
      var a, b := p[|p| - 2], q[|q| - 2];
      assert nodes[a].id == nodes[p[|p| - 1]].parent == nodes[b].id;
      PathUnique(nodes, p[..|p| - 1], q[..|q| - 1]);
      assert p == p[..|p| - 1] + [p[|p| - 1]];
      assert q == q[..|q| - 1] + [q[|q| - 1]];
    }
  }

  ghost predicate MeetsTwice(path: seq<nat>) {
    exists a, b :: 0 <= a < b < |path| && path[a] == path[b]
  }

  /** The emission follows the paths, so it ends exactly if their length is bounded, and then by that of the list. */
  ghost predicate EmissionEnds(nodes: seq<Node>) {
    forall path :: IsPath(nodes, path) ==> |path| <= |nodes|
  }

  lemma PathIsShort(nodes: seq<Node>, path: seq<nat>)
    requires EmissionEnds(nodes) && IsPath(nodes, path)
    ensures |path| <= |nodes|
  {
  }

  lemma {:induction false} DistinctBelow(path: seq<nat>, n: nat)
    requires forall k :: 0 <= k < |path| ==> path[k] < n
    requires forall a, b :: 0 <= a < b < |path| ==> path[a] != path[b]
    ensures |path| <= n
    decreases |path|
  {
    if path != [] {
      var last := path[|path| - 1];
      // The largest index takes the place of the last one.
      var rest := seq(|path| - 1, k requires 0 <= k < |path| - 1 => if path[k] == n - 1 then last else path[k]);
      DistinctBelow(rest, n - 1);
    }
  }

  /** A path that meets a node twice goes round for ever. */
  lemma {:induction false} Pump(nodes: seq<Node>, path: seq<nat>, a: nat, b: nat, n: nat)
    requires IsPath(nodes, path) && a < b < |path| && path[a] == path[b]
    ensures exists q :: IsPath(nodes, q) && |q| >= n && q[|q| - 1] == path[a]
  {
    if n == 0 {
      PathPrefix(nodes, path, a + 1);
      assert path[..a + 1][a] == path[a];
    } else {
      Pump(nodes, path, a, b, n - 1);
      var shorter :| IsPath(nodes, shorter) && |shorter| >= n - 1 && shorter[|shorter| - 1] == path[a];
      var q := shorter + path[a + 1..b + 1];
      forall k | 1 <= k < |q| ensures nodes[q[k]].parent == nodes[q[k - 1]].id {
        assert k >= |shorter| ==> q[k] == path[a + 1 + (k - |shorter|)];
        assert k > |shorter| ==> q[k - 1] == path[a + (k - |shorter|)];
      }
      assert IsPath(nodes, q);
    }
  }

  /** Whatever the list, its emission ends exactly if no path from a root meets a node twice. */
  lemma EmissionEndsExactly(nodes: seq<Node>)
    ensures EmissionEnds(nodes) <==> forall path :: IsPath(nodes, path) ==> !MeetsTwice(path)
  {
    forall path | IsPath(nodes, path) && !MeetsTwice(path) ensures |path| <= |nodes| {
      DistinctBelow(path, |nodes|);
    }
    forall path | IsPath(nodes, path) && MeetsTwice(path) ensures !EmissionEnds(nodes) {
      var a, b :| 0 <= a < b < |path| && path[a] == path[b];
      Pump(nodes, path, a, b, |nodes| + 1);
    }
  }

  /** With distinct ids it does end. */
  lemma IdentifiedEnds(nodes: seq<Node>)
    requires IsIdentified(nodes)
    ensures EmissionEnds(nodes)
  {
    forall path | IsPath(nodes, path) ensures !MeetsTwice(path) {
      forall a, b | 0 <= a < b < |path| ensures path[a] != path[b] {
        if path[a] == path[b] {
          PathPrefix(nodes, path, a + 1);
          PathPrefix(nodes, path, b + 1);
          PathUnique(nodes, path[..a + 1], path[..b + 1]);
        }
      }
    }
    EmissionEndsExactly(nodes);
  }

  // ------------------------------------------------------------ emission

  /** The children filed under a parent among the first `n` nodes, in list order. */
  function Kids(nodes: seq<Node>, parent: Option<string>, n: nat): (kids: seq<nat>)
    requires n <= |nodes|
    ensures forall j :: j in kids <==> 0 <= j < n && nodes[j].parent == parent
    ensures IsAscending(kids)
  {
    if n == 0 then []
    else
      var kids := Kids(nodes, parent, n - 1);
      assert forall a :: 0 <= a < |kids| ==> kids[a] in kids;
      if nodes[n - 1].parent == parent then kids + [n - 1] else kids
  }

  predicate IsAscending(kids: seq<nat>) {
    forall a, b :: 0 <= a < b < |kids| ==> kids[a] < kids[b]
  }

  function KidsOf(nodes: seq<Node>, path: seq<nat>): seq<nat>
    requires path != [] && path[|path| - 1] < |nodes|
  {
    Kids(nodes, nodes[path[|path| - 1]].id, |nodes|)
  }

  /** The paths in the order their nodes are visited: `path` itself, then below each of its children. */
  ghost function Walk(nodes: seq<Node>, path: seq<nat>): seq<seq<nat>>
    requires EmissionEnds(nodes) && IsPath(nodes, path)
    decreases |nodes| - |path|, 1, 0
  {
    KidsContinue(nodes, path);
    [path] + WalkKids(nodes, path, KidsOf(nodes, path))
  }

  ghost predicate Continue(nodes: seq<Node>, path: seq<nat>, kids: seq<nat>) {
    forall k :: 0 <= k < |kids| ==> IsPath(nodes, path + [kids[k]])
  }

  lemma KidsContinue(nodes: seq<Node>, path: seq<nat>)
    requires IsPath(nodes, path)
    ensures Continue(nodes, path, KidsOf(nodes, path))
  {
    var kids := KidsOf(nodes, path);
    forall k | 0 <= k < |kids|
      ensures IsPath(nodes, path + [kids[k]])
    {
      assert kids[k] in kids;
    }
  }

  ghost function WalkKids(nodes: seq<Node>, path: seq<nat>, kids: seq<nat>): seq<seq<nat>>
    requires EmissionEnds(nodes) && Continue(nodes, path, kids)
    decreases |nodes| - |path|, 0, |kids|
  {
    if kids == [] then []
    else
      PathIsShort(nodes, path + [kids[0]]);
      Walk(nodes, path + [kids[0]]) + WalkKids(nodes, path, kids[1..])
  }

  lemma RootsContinue(nodes: seq<Node>)
    ensures Continue(nodes, [], Kids(nodes, None, |nodes|))
  {
    var roots := Kids(nodes, None, |nodes|);
    forall k | 0 <= k < |roots|
      ensures IsPath(nodes, [] + [roots[k]])
    {
      assert roots[k] in roots;
    }
  }

  /** All paths, from the roots in list order. */
  ghost function WalkAll(nodes: seq<Node>): seq<seq<nat>>
    requires EmissionEnds(nodes)
  {
    RootsContinue(nodes);
    WalkKids(nodes, [], Kids(nodes, None, |nodes|))
  }

  lemma {:induction false} WalkSound(nodes: seq<Node>, path: seq<nat>, q: seq<nat>)
    requires EmissionEnds(nodes) && IsPath(nodes, path) && q in Walk(nodes, path)
    ensures IsPath(nodes, q) && path <= q
    decreases |nodes| - |path|, 1, 0
  {
    PathIsShort(nodes, path);
    KidsContinue(nodes, path);
    if q != path {
      WalkKidsSound(nodes, path, KidsOf(nodes, path), q);
    }
  }

  lemma {:induction false} WalkKidsSound(nodes: seq<Node>, path: seq<nat>, kids: seq<nat>, q: seq<nat>)
    requires EmissionEnds(nodes) && Continue(nodes, path, kids) && q in WalkKids(nodes, path, kids)
    ensures IsPath(nodes, q) && |path| < |q| && path == q[..|path|] && q[|path|] in kids
    decreases |nodes| - |path|, 0, |kids|
  {
    PathIsShort(nodes, path + [kids[0]]);
    if q in Walk(nodes, path + [kids[0]]) {
      WalkSound(nodes, path + [kids[0]], q);
    } else {
      WalkKidsSound(nodes, path, kids[1..], q);
    }
  }

  lemma {:induction false} WalkComplete(nodes: seq<Node>, path: seq<nat>, q: seq<nat>)
    requires EmissionEnds(nodes) && IsPath(nodes, path) && IsPath(nodes, q) && path <= q
    ensures q in Walk(nodes, path)
    decreases |nodes| - |path|, 1, 0
  {
    PathIsShort(nodes, path);
    KidsContinue(nodes, path);
    if |q| > |path| {
      assert nodes[q[|path|]].parent == nodes[q[|path| - 1]].id;
      WalkKidsComplete(nodes, path, KidsOf(nodes, path), q);
    } else {
      assert Walk(nodes, path)[0] == path == q;
    }
  }

  lemma {:induction false} WalkKidsComplete(nodes: seq<Node>, path: seq<nat>, kids: seq<nat>, q: seq<nat>)
    requires EmissionEnds(nodes) && Continue(nodes, path, kids) && IsPath(nodes, q)
    requires |path| < |q| && path == q[..|path|] && q[|path|] in kids
    ensures q in WalkKids(nodes, path, kids)
    decreases |nodes| - |path|, 0, |kids|
  {
    PathIsShort(nodes, path + [kids[0]]);
    if q[|path|] == kids[0] {
      WalkComplete(nodes, path + [kids[0]], q);
    } else {
      WalkKidsComplete(nodes, path, kids[1..], q);
    }
  }

  /** Document order: ancestors first, and siblings as they are listed. */
  ghost predicate IsBefore(p: seq<nat>, q: seq<nat>) {
    p < q || exists k :: SplitAt(p, q, k)
  }

  ghost predicate SplitAt(p: seq<nat>, q: seq<nat>, k: nat) {
    k < |p| && k < |q| && p[..k] == q[..k] && p[k] < q[k]
  }

  ghost predicate IsOrdered(paths: seq<seq<nat>>) {
    forall a, b :: 0 <= a < b < |paths| ==> IsBefore(paths[a], paths[b])
  }

  lemma OrderedConcat(ps: seq<seq<nat>>, qs: seq<seq<nat>>)
    requires IsOrdered(ps) && IsOrdered(qs)
    requires forall p, q :: p in ps && q in qs ==> IsBefore(p, q)
    ensures IsOrdered(ps + qs)
  {
  }

  lemma {:induction false} WalkOrdered(nodes: seq<Node>, path: seq<nat>)
    requires EmissionEnds(nodes) && IsPath(nodes, path)
    ensures IsOrdered(Walk(nodes, path))
    decreases |nodes| - |path|, 1, 0
  {
    PathIsShort(nodes, path);
    KidsContinue(nodes, path);
    var kids := KidsOf(nodes, path);
    WalkKidsOrdered(nodes, path, kids);
    forall q | q in WalkKids(nodes, path, kids)
      ensures IsBefore(path, q)
    {
      WalkKidsSound(nodes, path, kids, q);
    }
    OrderedConcat([path], WalkKids(nodes, path, kids));
  }

  lemma {:induction false} WalkKidsOrdered(nodes: seq<Node>, path: seq<nat>, kids: seq<nat>)
    requires EmissionEnds(nodes) && Continue(nodes, path, kids) && IsAscending(kids)
    ensures IsOrdered(WalkKids(nodes, path, kids))
    decreases |nodes| - |path|, 0, |kids|
  {
    if kids != [] {
      var first := path + [kids[0]];
      PathIsShort(nodes, first);
      WalkOrdered(nodes, first);
      WalkKidsOrdered(nodes, path, kids[1..]);
      forall p, q | p in Walk(nodes, first) && q in WalkKids(nodes, path, kids[1..])
        ensures IsBefore(p, q)
      {
        WalkSound(nodes, first, p);
        WalkKidsSound(nodes, path, kids[1..], q);
        assert p[..|path|] == first[..|path|] && p[|path|] == first[|path|];
        assert SplitAt(p, q, |path|);
      }
      OrderedConcat(Walk(nodes, first), WalkKids(nodes, path, kids[1..]));
    }
  }

  lemma NotBeforeItself(p: seq<nat>)
    ensures !IsBefore(p, p)
  {
  }

  /** The walk visits exactly the paths from a root, in document order, and so each of them once. */
  lemma WalkVisitsEachOnce(nodes: seq<Node>)
    requires EmissionEnds(nodes)
    ensures forall q :: q in WalkAll(nodes) <==> IsPath(nodes, q)
    ensures IsOrdered(WalkAll(nodes))
    ensures forall a, b :: 0 <= a < b < |WalkAll(nodes)| ==> WalkAll(nodes)[a] != WalkAll(nodes)[b]
  {
    var roots := Kids(nodes, None, |nodes|);
    RootsContinue(nodes);
    forall q
      ensures q in WalkAll(nodes) <==> IsPath(nodes, q)
    {
      if q in WalkAll(nodes) {
        WalkKidsSound(nodes, [], roots, q);
      } else if IsPath(nodes, q) {
        WalkKidsComplete(nodes, [], roots, q);
      }
    }
    WalkKidsOrdered(nodes, [], roots);
    forall p ensures !IsBefore(p, p) {
      NotBeforeItself(p);
    }
  }

  // ------------------------------------------------------------ lines

  /** How many nodes of a path are rendered. */
  function Visible(nodes: seq<Node>, path: seq<nat>): nat
    requires forall k :: 0 <= k < |path| ==> path[k] < |nodes|
  {
    if path == [] then 0
    else Visible(nodes, path[..|path| - 1]) + if nodes[path[|path| - 1]].ignored then 0 else 1
  }

  function Indent(depth: nat): string {
    seq(2 * depth, _ => ' ')
  }

  /** The line of a path's last node, indented by its rendered ancestors. */
  ghost function LineOf(nodes: seq<Node>, path: seq<nat>): Line
    requires IsPath(nodes, path)
  {
    var node := nodes[path[|path| - 1]];
    Line(Indent(Visible(nodes, path[..|path| - 1])) + node.caption, node.bid != "")
  }

  ghost predicate IsShown(nodes: seq<Node>, path: seq<nat>) {
    IsPath(nodes, path) && !nodes[path[|path| - 1]].ignored
  }

  /** The paths among `paths` whose node is rendered. */
  ghost function Shown(nodes: seq<Node>, paths: seq<seq<nat>>): (shown: seq<seq<nat>>)
    ensures forall q :: q in shown <==> q in paths && IsShown(nodes, q)
  {
    if paths == [] then []
    else if IsShown(nodes, paths[0]) then [paths[0]] + Shown(nodes, paths[1..])
    else Shown(nodes, paths[1..])
  }

  lemma {:induction false} ShownConcat(nodes: seq<Node>, ps: seq<seq<nat>>, qs: seq<seq<nat>>)
    ensures Shown(nodes, ps + qs) == Shown(nodes, ps) + Shown(nodes, qs)
  {
    if ps == [] {
      assert ps + qs == qs;
    } else {
      assert (ps + qs)[1..] == ps[1..] + qs;
      ShownConcat(nodes, ps[1..], qs);
    }
  }

  lemma {:induction false} ShownOrdered(nodes: seq<Node>, paths: seq<seq<nat>>)
    requires IsOrdered(paths)
    ensures IsOrdered(Shown(nodes, paths))
  {
    if paths != [] {
      ShownOrdered(nodes, paths[1..]);
      if IsShown(nodes, paths[0]) {
        OrderedConcat([paths[0]], Shown(nodes, paths[1..]));
      }
    }
  }

  ghost function Lines(nodes: seq<Node>, paths: seq<seq<nat>>): seq<Line> {
    var shown := Shown(nodes, paths);
    seq(|shown|, k requires 0 <= k < |shown| => assert shown[k] in shown; LineOf(nodes, shown[k]))
  }

  lemma LinesConcat(nodes: seq<Node>, ps: seq<seq<nat>>, qs: seq<seq<nat>>)
    ensures Lines(nodes, ps + qs) == Lines(nodes, ps) + Lines(nodes, qs)
  {
    ShownConcat(nodes, ps, qs);
  }

  /** The rendered nodes are those that hang on a root and are not ignored; they come once each, in document order. */
  lemma LinesAreTheVisibleTree(nodes: seq<Node>)
    requires EmissionEnds(nodes)
    ensures var shown := Shown(nodes, WalkAll(nodes));
      && (forall q :: q in shown <==> IsShown(nodes, q))
      && IsOrdered(shown)
      && |Lines(nodes, WalkAll(nodes))| == |shown|
      && forall k :: 0 <= k < |shown| ==> IsPath(nodes, shown[k]) && Lines(nodes, WalkAll(nodes))[k] == LineOf(nodes, shown[k])
  {
    WalkVisitsEachOnce(nodes);
    ShownOrdered(nodes, WalkAll(nodes));
    var shown := Shown(nodes, WalkAll(nodes));
    forall k | 0 <= k < |shown| ensures IsPath(nodes, shown[k]) {
      assert shown[k] in shown;
    }
  }

  // ------------------------------------------------------------ the over-budget prune

  function Joined(lines: seq<Line>): string {
    if lines == [] then ""
    else if |lines| == 1 then lines[0].text
    else Joined(lines[..|lines| - 1]) + "\n" + lines[|lines| - 1].text
  }

  function Actionable(lines: seq<Line>): seq<Line> {
    if lines == [] then []
    else if lines[0].actionable then [lines[0]] + Actionable(lines[1..])
    else Actionable(lines[1..])
  }

  /** The text cut at its newlines. */
  function Split(text: string): seq<string> {
    if text == "" then [""]
    else if text[|text| - 1] == '\n' then Split(text[..|text| - 1]) + [""]
    else
      var parts := Split(text[..|text| - 1]);
      if parts == [] then [] else parts[..|parts| - 1] + [parts[|parts| - 1] + [text[|text| - 1]]]
  }

  lemma {:induction false} SplitAfterNewline(text: string, last: string)
    requires '\n' !in last
    ensures Split(text + "\n" + last) == Split(text) + [last]
    ensures Split(last) == [last]
  {
    if last == "" {
      assert (text + "\n" + last)[..|text|] == text;
    } else {
      var front := last[..|last| - 1];
      SplitAfterNewline(text, front);
      assert (text + "\n" + last)[..|text| + |last|] == text + "\n" + front;
      assert front + [last[|last| - 1]] == last;
    }
  }

  function Texts(lines: seq<Line>): seq<string> {
    seq(|lines|, i requires 0 <= i < |lines| => lines[i].text)
  }

  /** Cut at its newlines, the joined text gives the lines back in order. */
  lemma {:induction false} SplitJoined(lines: seq<Line>)
    requires lines != [] && forall k :: 0 <= k < |lines| ==> '\n' !in lines[k].text
    ensures Split(Joined(lines)) == Texts(lines)
  {
    hide Split;
    var front, last := lines[..|lines| - 1], lines[|lines| - 1];
    SplitAfterNewline(Joined(front), last.text);
    if |lines| > 1 {
      SplitJoined(front);
      assert Texts(lines) == Texts(front) + [last.text];
    }
  }

  /** What is left once the decorative lines from index `k` on are gone. */
  function PrunedFrom(lines: seq<Line>, k: nat): seq<Line>
    requires k <= |lines|
  {
    lines[..k] + Actionable(lines[k..])
  }

  /** The length a line adds to the join, its newline included. */
  function Total(lines: seq<Line>): nat {
    if lines == [] then 0 else Total(lines[..|lines| - 1]) + |lines[|lines| - 1].text| + 1
  }

  predicate Fits(lines: seq<Line>) {
    |Joined(lines)| <= MAX_OBS_CHARS
  }

  /** The longest prefix whose decorative lines may stay; the whole list when that fits. */
  function Cut(lines: seq<Line>, k: nat): (cut: nat)
    requires k <= |lines|
    ensures cut <= k
    ensures cut == 0 || Fits(PrunedFrom(lines, cut))
    ensures forall j :: cut < j <= k ==> !Fits(PrunedFrom(lines, j))
  {
    if k == 0 || Fits(PrunedFrom(lines, k)) then k else Cut(lines, k - 1)
  }

  function Pruned(lines: seq<Line>): seq<Line> {
    PrunedFrom(lines, Cut(lines, |lines|))
  }

  function Bounded(lines: seq<Line>): string {
    var text := Joined(Pruned(lines));
    if |text| <= MAX_OBS_CHARS then text else text[..MAX_OBS_CHARS] + TRUNCATED
  }

  /** The running size: one less than the total while any line is left, and -1, not 0, once none is. */
  lemma {:induction false} JoinedLength(lines: seq<Line>)
    ensures |Joined(lines)| == if lines == [] then 0 else Total(lines) - 1
  {
    if |lines| > 1 {
      JoinedLength(lines[..|lines| - 1]);
    } else if |lines| == 1 {
      assert Total(lines[..0]) == 0;
    }
  }

  lemma {:induction false} TotalConcat(ks: seq<Line>, ls: seq<Line>)
    ensures Total(ks + ls) == Total(ks) + Total(ls)
  {
    if ls == [] {
      assert ks + ls == ks;
    } else {
      assert (ks + ls)[..|ks + ls| - 1] == ks + ls[..|ls| - 1];
      TotalConcat(ks, ls[..|ls| - 1]);
    }
  }

  lemma {:induction false} ActionableConcat(ks: seq<Line>, ls: seq<Line>)
    ensures Actionable(ks + ls) == Actionable(ks) + Actionable(ls)
  {
    if ks == [] {
      assert ks + ls == ls;
    } else {
      assert (ks + ls)[1..] == ks[1..] + ls;
      ActionableConcat(ks[1..], ls);
    }
  }

  lemma {:induction false} ActionableExactly(lines: seq<Line>, l: Line)
    ensures l in Actionable(lines) <==> l in lines && l.actionable
  {
    if lines != [] {
      ActionableExactly(lines[1..], l);
      assert lines == [lines[0]] + lines[1..];
    }
  }

  lemma {:induction false} ActionableTwice(lines: seq<Line>)
    ensures Actionable(Actionable(lines)) == Actionable(lines)
  {
    if lines != [] {
      ActionableTwice(lines[1..]);
      if lines[0].actionable {
        assert Actionable(lines)[1..] == Actionable(lines[1..]);
      }
    }
  }

  lemma {:induction false} ActionableTotal(lines: seq<Line>)
    ensures Total(Actionable(lines)) <= Total(lines)
  {
    if lines != [] {
      ActionableTotal(lines[1..]);
      assert lines == [lines[0]] + lines[1..];
      TotalConcat([lines[0]], lines[1..]);
      TotalConcat([lines[0]], Actionable(lines[1..]));
    }
  }

  /** Pruning drops no actionable line and moves none. */
  lemma PruneKeepsActionable(lines: seq<Line>)
    ensures Actionable(Pruned(lines)) == Actionable(lines)
  {
    var k := Cut(lines, |lines|);
    ActionableConcat(lines[..k], lines[k..]);
    ActionableConcat(lines[..k], Actionable(lines[k..]));
    ActionableTwice(lines[k..]);
    assert lines == lines[..k] + lines[k..];
  }

  /** Lines go from the end only, no sooner than needed: one decorative line more and the text would not fit. */
  lemma PruneStopsAtFirstFit(lines: seq<Line>)
    ensures exists k :: 0 <= k <= |lines| && Pruned(lines) == PrunedFrom(lines, k)
              && (k == 0 || Fits(PrunedFrom(lines, k)))
              && forall j :: k < j <= |lines| ==> !Fits(PrunedFrom(lines, j))
    ensures Fits(lines) ==> Pruned(lines) == lines
    ensures !Fits(Pruned(lines)) ==> Pruned(lines) == Actionable(lines)
  {
    var k := Cut(lines, |lines|);
    assert PrunedFrom(lines, |lines|) == lines;
    assert PrunedFrom(lines, 0) == Actionable(lines);
  }

  /**
   The pruned text is cut short exactly when the actionable lines alone exceed the budget. Only then are actionable
   lines lost, and only then is the observation longer than its bound, by the notice.
   */
  lemma ActionableSurviveExactly(lines: seq<Line>)
    ensures Fits(Pruned(lines)) <==> Fits(Actionable(lines))
    ensures Fits(Actionable(lines)) ==> Bounded(lines) == Joined(Pruned(lines))
    ensures !Fits(Actionable(lines)) ==> Bounded(lines) == Joined(Actionable(lines))[..MAX_OBS_CHARS] + TRUNCATED
    ensures |Bounded(lines)| <= MAX_OBS_CHARS <==> Fits(Actionable(lines))
  {
    PruneStopsAtFirstFit(lines);
    PruneKeepsActionable(lines);
    ActionableTotal(Pruned(lines));
    JoinedLength(Pruned(lines));
    JoinedLength(Actionable(lines));
  }

  lemma PruneStep(lines: seq<Line>, i: nat)
    requires i < |lines|
    ensures var was := PrunedFrom(lines, i + 1);
      && i < |was| && was[i] == lines[i]
      && PrunedFrom(lines, i) == (if lines[i].actionable then was else was[..i] + was[i + 1..])
      && Total(PrunedFrom(lines, i)) == Total(was) - if lines[i].actionable then 0 else |lines[i].text| + 1
  {
    var front, rest := lines[..i], Actionable(lines[i + 1..]);
    assert lines[i..][1..] == lines[i + 1..];
    assert PrunedFrom(lines, i + 1) == front + ([lines[i]] + rest);
    TotalConcat(front, [lines[i]] + rest);
    TotalConcat([lines[i]], rest);
    TotalConcat(front, rest);
  }

  method Prune(given: seq<Line>) returns (text: string)
    ensures text == Bounded(given)
  {
    hide Joined, Actionable, Total, PrunedFrom;
    var lines := given;
    PruneStopsAtFirstFit(given);
    JoinedLength(given);
    text := Joined(lines);
    if |text| <= MAX_OBS_CHARS {
      return;
    }
    var size, i := |text|, |lines| - 1;
    PrunedFromEnd(given);
    while i >= 0 && size > MAX_OBS_CHARS
      invariant -1 <= i < |given|
      invariant lines == PrunedFrom(given, i + 1)
      invariant size == Total(lines) - 1
      invariant Cut(given, |given|) == Cut(given, i + 1)
    {
      PruneStep(given, i);
      JoinedLength(lines);
      if !lines[i].actionable {
        size := size - (|lines[i].text| + 1);
        lines := lines[..i] + lines[i + 1..];
      }
      i := i - 1;
    }
    JoinedLength(lines);
    text := Joined(lines);
    if |text| > MAX_OBS_CHARS {
      text := text[..MAX_OBS_CHARS] + TRUNCATED;
    }
  }

  lemma PrunedFromEnd(lines: seq<Line>)
    ensures PrunedFrom(lines, |lines|) == lines
    ensures lines == [] ==> Fits(lines)
  {
  }

  // ------------------------------------------------------------ the flattener

  lemma LinesOfOne(nodes: seq<Node>, path: seq<nat>)
    requires IsPath(nodes, path)
    ensures Lines(nodes, [path]) == if nodes[path[|path| - 1]].ignored then [] else [LineOf(nodes, path)]
  {
    assert [path] == [path] + [];
    assert Shown(nodes, [path]) == if IsShown(nodes, path) then [path] else [];
  }

  /** Visiting a node: its own line, then what its children emit one level deeper. */
  lemma LinesOfNode(nodes: seq<Node>, path: seq<nat>)
    requires EmissionEnds(nodes) && IsPath(nodes, path)
    ensures path[|path| - 1] < |nodes|
    ensures Continue(nodes, path, KidsOf(nodes, path))
    ensures Lines(nodes, Walk(nodes, path)) == Lines(nodes, [path]) + LinesBelow(nodes, path, KidsOf(nodes, path))
  {
    hide Lines;
    KidsContinue(nodes, path);
    LinesConcat(nodes, [path], WalkKids(nodes, path, KidsOf(nodes, path)));
  }

  ghost function LinesBelow(nodes: seq<Node>, path: seq<nat>, kids: seq<nat>): seq<Line>
    requires EmissionEnds(nodes) && Continue(nodes, path, kids)
  {
    Lines(nodes, WalkKids(nodes, path, kids))
  }

  lemma LinesBelowStep(nodes: seq<Node>, path: seq<nat>, kids: seq<nat>, k: nat)
    requires EmissionEnds(nodes) && k < |kids| && Continue(nodes, path, kids[k..])
    ensures var next := path + [kids[k]];
      && IsPath(nodes, next) && |next| <= |nodes| && Continue(nodes, path, kids[k + 1..])
      && LinesBelow(nodes, path, kids[k..]) == Lines(nodes, Walk(nodes, next)) + LinesBelow(nodes, path, kids[k + 1..])
  {
    hide Lines;
    var next := path + [kids[k]];
    assert kids[k..][0] == kids[k] && kids[k..][1..] == kids[k + 1..];
    assert IsPath(nodes, path + [kids[k..][0]]);
    PathIsShort(nodes, next);
    assert Continue(nodes, path, kids[k..][1..]);
    LinesConcat(nodes, Walk(nodes, next), WalkKids(nodes, path, kids[k + 1..]));
  }

  lemma LinesBelowNone(nodes: seq<Node>, path: seq<nat>)
    requires EmissionEnds(nodes) && Continue(nodes, path, [])
    ensures LinesBelow(nodes, path, []) == []
  {
  }

  function Filed(children: map<Option<string>, seq<nat>>, parent: Option<string>): seq<nat> {
    if parent in children then children[parent] else []
  }

  class Flattener {
    const nodes: seq<Node>
    const children: map<Option<string>, seq<nat>>
    var lines: seq<Line>

    ghost predicate Valid() {
      forall parent :: Filed(children, parent) == Kids(nodes, parent, |nodes|)
    }

    constructor (nodes: seq<Node>)
      ensures Valid() && this.nodes == nodes && lines == []
    {
      var filed: map<Option<string>, seq<nat>> := map[];
      for n := 0 to |nodes|
        invariant forall parent :: Filed(filed, parent) == Kids(nodes, parent, n)
      {
        var parent := nodes[n].parent;
        filed := filed[parent := Filed(filed, parent) + [n]];
      }
      this.nodes := nodes;
      this.children := filed;
      this.lines := [];
    }

    method Emit(i: nat, depth: nat, ghost path: seq<nat>)
      requires Valid() && EmissionEnds(nodes) && IsPath(nodes, path) && path[|path| - 1] == i
      requires depth == Visible(nodes, path[..|path| - 1])
      modifies this
      ensures lines == old(lines) + Lines(nodes, Walk(nodes, path))
      decreases |nodes| - |path|
    {
      hide *;
      FiledAt(path);
      LinesOfNode(nodes, path);
      LinesOfOne(nodes, path);
      var node := nodes[i];
      var below := depth;
      if !node.ignored {
        lines := lines + [Line(Indent(depth) + node.caption, node.bid != "")];
        below := depth + 1;
      }
      LineAt(path);
      var kids := Filed(children, node.id);
      ghost var emitted := lines;
      assert emitted == old(lines) + Lines(nodes, [path]);
      assert kids[0..] == kids;
      for k := 0 to |kids|
        invariant Continue(nodes, path, kids[k..])
        invariant emitted + LinesBelow(nodes, path, kids) == lines + LinesBelow(nodes, path, kids[k..])
      {
        LinesBelowStep(nodes, path, kids, k);
        DepthBelow(path, kids[k]);
        Emit(kids[k], below, path + [kids[k]]);
      }
      assert kids[|kids|..] == [];
      LinesBelowNone(nodes, path);
      assert lines == emitted + LinesBelow(nodes, path, kids);
    }

    lemma LineAt(path: seq<nat>)
      requires IsPath(nodes, path)
      ensures var node := nodes[path[|path| - 1]];
        LineOf(nodes, path) == Line(Indent(Visible(nodes, path[..|path| - 1])) + node.caption, node.bid != "")
    {
    }

    lemma FiledAt(path: seq<nat>)
      requires Valid() && IsPath(nodes, path)
      ensures Filed(children, nodes[path[|path| - 1]].id) == KidsOf(nodes, path)
    {
    }

    lemma DepthBelow(path: seq<nat>, kid: nat)
      requires IsPath(nodes, path) && IsPath(nodes, path + [kid])
      ensures (path + [kid])[|path + [kid]| - 1] == kid
      ensures Visible(nodes, (path + [kid])[..|path + [kid]| - 1]) ==
        Visible(nodes, path[..|path| - 1]) + if nodes[path[|path| - 1]].ignored then 0 else 1
    {
      assert (path + [kid])[..|path + [kid]| - 1] == path;
    }

    lemma RootsFiled()
      requires Valid() && EmissionEnds(nodes)
      ensures Continue(nodes, [], Filed(children, None))
      ensures LinesBelow(nodes, [], Filed(children, None)) == Lines(nodes, WalkAll(nodes))
    {
      RootsContinue(nodes);
    }

    lemma RootDepth(root: nat)
      requires IsPath(nodes, [] + [root])
      ensures ([] + [root])[..|[] + [root]| - 1] == []
      ensures Visible(nodes, []) == 0
    {
    }

    method Flatten() returns (text: string)
      requires Valid() && EmissionEnds(nodes) && lines == []
      modifies this
      ensures lines == Lines(nodes, WalkAll(nodes))
      ensures text == Bounded(lines)
    {
      hide *;
      var roots := Filed(children, None);
      assert roots[0..] == roots;
      RootsFiled();
      for k := 0 to |roots|
        invariant Continue(nodes, [], roots[k..])
        invariant Lines(nodes, WalkAll(nodes)) == lines + LinesBelow(nodes, [], roots[k..])
      {
        LinesBelowStep(nodes, [], roots, k);
        RootDepth(roots[k]);
        Emit(roots[k], 0, [] + [roots[k]]);
      }
      assert roots[|roots|..] == [];
      LinesBelowNone(nodes, []);
      text := Prune(lines);
    }
  }
}
