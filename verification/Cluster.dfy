/**
 The leader clustering of pkg/uiauto/pattern_cluster.go. The similarity of two fingerprints is an arbitrary
 function, not assumed symmetric; pattern IDs are visited in sorted order. A pattern that is close to no earlier
 seed becomes a seed, and every other one joins the cluster of the earliest seed it is close to; the members of a
 cluster are compared with its seed only.
 */
module PatternClustering {

  datatype Pattern<F> = Pattern(description: string, fingerprint: F, lastSeen: int, confidence: real)

  datatype Cluster<F> = Cluster(
    id: string,
    caption: string,
    centroid: F,
    members: seq<string>,
    avgConfidence: real,
    lastUpdated: int
  )

  type Patterns<F> = map<string, Pattern<F>>

  // ------------------------------------------------------------ sorted IDs

  /** Lexicographic order by character. */
  predicate Below(a: string, b: string) {
    if b == "" then false
    else if a == "" then true
    else a[0] < b[0] || (a[0] == b[0] && Below(a[1..], b[1..]))
  }

  lemma {:induction false} BelowTotal(a: string, b: string)
    ensures Below(a, b) || Below(b, a) || a == b
    ensures !(Below(a, b) && Below(b, a)) && !Below(a, a)
  {
    if a != "" {
      BelowSelf(a);
    }
    if a != "" && b != "" && a[0] == b[0] {
      BelowTotal(a[1..], b[1..]);
      assert a[1..] == b[1..] ==> a == [a[0]] + a[1..] == b;
    }
  }

  lemma {:induction false} BelowSelf(a: string)
    ensures !Below(a, a)
  {
    if a != "" {
      BelowSelf(a[1..]);
    }
  }

  lemma {:induction false} BelowTransitive(a: string, b: string, c: string)
    requires Below(a, b) && Below(b, c)
    ensures Below(a, c)
  {
    if a != "" && a[0] == b[0] && b[0] == c[0] {
      BelowTransitive(a[1..], b[1..], c[1..]);
    }
  }

  ghost predicate IsLeast(m: string, s: set<string>) {
    m in s && forall k :: k in s && k != m ==> Below(m, k)
  }

  lemma {:induction false} LeastExists(s: set<string>)
    requires s != {}
    ensures exists m :: IsLeast(m, s)
  {
    var x :| x in s;
    var rest := s - {x};
    if rest == {} {
      assert s == {x};
      assert IsLeast(x, s);
    } else {
      LeastExists(rest);
      var m :| IsLeast(m, rest);
      BelowTotal(x, m);
      if Below(x, m) {
        forall k | k in s && k != x ensures Below(x, k) {
          if k != m {
            BelowTransitive(x, m, k);
          }
        }
        assert IsLeast(x, s);
      } else {
        assert IsLeast(m, s);
      }
    }
  }

  ghost predicate StrictlySorted(ids: seq<string>) {
    forall i, j :: 0 <= i < j < |ids| ==> Below(ids[i], ids[j])
  }

  /** The keys in increasing order, each once. */
  method SortedIds(keys: set<string>) returns (ids: seq<string>)
    ensures ids == Sorted(keys) && StrictlySorted(ids)
    ensures forall k :: k in ids <==> k in keys
  {
    ids := [];
    var rest := keys;
    while rest != {}
      invariant rest <= keys
      invariant StrictlySorted(ids)
      invariant forall k :: k in ids <==> k in keys && k !in rest
      invariant forall i, k :: 0 <= i < |ids| && k in rest ==> Below(ids[i], k)
    {
      LeastExists(rest);
      var m :| m in rest && forall k :: k in rest && k != m ==> Below(m, k);
      ids := ids + [m];
      rest := rest - {m};
    }
    SortedIsUnique(ids, Sorted(keys));
  }

  lemma SortedIsDistinct(ids: seq<string>, i: nat, j: nat)
    requires StrictlySorted(ids) && i < |ids| && j < |ids|
    ensures ids[i] == ids[j] ==> i == j
  {
    BelowSelf(ids[i]);
  }

  /** The one increasing sequence of the keys. */
  ghost function Sorted(keys: set<string>): (ids: seq<string>)
    ensures forall k :: k in ids <==> k in keys
    ensures StrictlySorted(ids)
  {
    if keys == {} then []
    else
      LeastExists(keys);
      var m :| IsLeast(m, keys);
      var rest := Sorted(keys - {m});
      assert forall i :: 0 <= i < |rest| ==> rest[i] in rest;
      [m] + rest
  }

  lemma {:induction false} SortedIsUnique(a: seq<string>, b: seq<string>)
    requires StrictlySorted(a) && StrictlySorted(b) && forall k :: k in a <==> k in b
    ensures a == b
  {
    assert a != [] ==> a[0] in b;
    assert b != [] ==> b[0] in a;
    if a != [] && b != [] {
      FirstIsLeast(a, b);
      FirstIsLeast(b, a);
      BelowTotal(a[0], b[0]);
      forall k ensures k in a[1..] <==> k in b[1..] {
        TailWithoutFirst(a, k);
        TailWithoutFirst(b, k);
      }
      SortedIsUnique(a[1..], b[1..]);
    }
  }

  lemma FirstIsLeast(a: seq<string>, b: seq<string>)
    requires StrictlySorted(a) && a != [] && b != [] && forall k :: k in a <==> k in b
    ensures a[0] == b[0] || Below(a[0], b[0])
  {
    assert b[0] in a;
  }

  lemma TailWithoutFirst(a: seq<string>, k: string)
    requires StrictlySorted(a) && a != []
    ensures k in a[1..] <==> k in a && k != a[0]
  {
    BelowSelf(a[0]);
    assert forall i :: 1 <= i < |a| ==> a[i] == a[1..][i - 1];
  }

  // ---------------------------------------------------- the reference result

  /** `close[j][i]`: the similarity of the `j`-th pattern to the `i`-th reaches the threshold. */
  type Closeness = (nat, nat) -> bool

  /** A pattern is a seed when no earlier seed is close to it. */
  ghost predicate IsSeed(close: Closeness, i: nat)
    decreases i
  {
    forall j: nat :: j < i ==> !(IsSeed(close, j) && close(j, i))
  }

  /** Seed `j` claims pattern `i`: its own, or one that comes later and is close to it. */
  ghost predicate Claims(close: Closeness, j: nat, i: nat) {
    IsSeed(close, j) && (j == i || (j < i && close(j, i)))
  }

  /** The first seed that claims `i`. */
  ghost predicate Owns(close: Closeness, j: nat, i: nat) {
    Claims(close, j, i) && forall k: nat :: k < j ==> !Claims(close, k, i)
  }

  lemma {:induction false} OwnerExists(close: Closeness, i: nat)
    ensures exists j: nat :: j <= i && Owns(close, j, i)
  {
    var j := 0;
    while !Claims(close, j, i)
      invariant j <= i && forall k: nat :: k < j ==> !Claims(close, k, i)
      decreases i - j
    {
      if j == i {
        assert forall k: nat :: k < i ==> !(IsSeed(close, k) && close(k, i)) by {
          forall k: nat | k < i ensures !(IsSeed(close, k) && close(k, i)) {
            assert !Claims(close, k, i);
          }
        }
        assert IsSeed(close, i);
      }
      j := j + 1;
    }
    assert Owns(close, j, i);
  }

  lemma OwnerIsUnique(close: Closeness, j: nat, k: nat, i: nat)
    requires Owns(close, j, i) && Owns(close, k, i)
    ensures j == k
  {
  }

  /** Only one set of seeds has no member claimed by an earlier one and leaves no other pattern unclaimed. */
  lemma {:induction false} SeedsAreDetermined(close: Closeness, s: set<nat>, n: nat, i: nat)
    requires forall a: nat, b: nat :: a in s && b in s && a < b < n ==> !close(a, b)
    requires forall b: nat :: b < n && b !in s ==> exists a: nat :: a in s && a < b && close(a, b)
    requires i < n
    ensures i in s <==> IsSeed(close, i)
    decreases i
  {
    forall j: nat | j < i ensures j in s <==> IsSeed(close, j) {
      SeedsAreDetermined(close, s, n, j);
    }
  }

  /** The IDs owned by seed `j` among the first `n`, in order. */
  ghost function OwnedBy(close: Closeness, ids: seq<string>, j: nat, n: nat): seq<string>
    requires n <= |ids|
  {
    if n == 0 then []
    else OwnedBy(close, ids, j, n - 1) + (if Owns(close, j, n - 1) then [ids[n - 1]] else [])
  }

  lemma {:induction false} OwnedByMembership(close: Closeness, ids: seq<string>, j: nat, n: nat, i: nat)
    requires StrictlySorted(ids) && n <= |ids| && i < |ids|
    ensures ids[i] in OwnedBy(close, ids, j, n) <==> i < n && Owns(close, j, i)
  {
    if n > 0 {
      OwnedByMembership(close, ids, j, n - 1, i);
      SortedIsDistinct(ids, i, n - 1);
    }
  }

  /** The positions of the seeds among the first `n`, in order. */
  ghost function Seeds(close: Closeness, n: nat): seq<nat> {
    if n == 0 then [] else Seeds(close, n - 1) + (if IsSeed(close, n - 1) then [n - 1] else [])
  }

  lemma {:induction false} SeedsMembership(close: Closeness, n: nat, j: nat)
    ensures j in Seeds(close, n) <==> j < n && IsSeed(close, j)
  {
    if n > 0 {
      SeedsMembership(close, n - 1, j);
    }
  }

  // --------------------------------------------------------- member figures

  function TotalConfidence<F>(patterns: Patterns<F>, ids: seq<string>): real
    requires forall id :: id in ids ==> id in patterns
  {
    if ids == [] then 0.0
    else TotalConfidence(patterns, ids[..|ids| - 1]) + patterns[ids[|ids| - 1]].confidence
  }

  ghost predicate IsLatest<F>(patterns: Patterns<F>, ids: seq<string>, t: int)
    requires forall id :: id in ids ==> id in patterns
  {
    && (exists id :: id in ids && patterns[id].lastSeen == t)
    && forall id :: id in ids ==> patterns[id].lastSeen <= t
  }

  method AvgConfidence<F>(members: seq<string>, patterns: Patterns<F>) returns (avg: real)
    requires forall id :: id in members ==> id in patterns
    ensures members == [] ==> avg == 0.0
    ensures members != [] ==> avg == TotalConfidence(patterns, members) / |members| as real
  {
    if |members| == 0 {
      return 0.0;
    }
    var sum := 0.0;
    for i := 0 to |members|
      invariant sum == TotalConfidence(patterns, members[..i])
    {
      assert members[..i + 1][..i] == members[..i];
      sum := sum + patterns[members[i]].confidence;
    }
    assert members[..|members|] == members;
    return sum / |members| as real;
  }

  // -------------------------------------------------------------- the engine

  ghost predicate OwnedBefore(close: Closeness, m: nat, i: nat) {
    exists j: nat :: j < i && Owns(close, j, m)
  }

  /** A pattern is still unowned when its turn comes exactly if it is a seed. */
  lemma UnownedIsSeed(close: Closeness, i: nat)
    ensures OwnedBefore(close, i, i) <==> !IsSeed(close, i)
    ensures IsSeed(close, i) ==> Owns(close, i, i)
  {
    OwnerExists(close, i);
    var owner: nat :| owner <= i && Owns(close, owner, i);
    if IsSeed(close, i) {
      forall k: nat | k < i ensures !Claims(close, k, i) {
        assert !(IsSeed(close, k) && close(k, i));
      }
    }
  }

  lemma EarlierIsOwned(close: Closeness, m: nat, i: nat)
    requires m < i
    ensures OwnedBefore(close, m, i)
  {
    OwnerExists(close, m);
    var owner: nat :| owner <= m && Owns(close, owner, m);
  }

  /** Seed `i` owns a later pattern exactly when it is close to it and no earlier seed owns it. */
  lemma OwnsLater(close: Closeness, i: nat, m: nat)
    requires IsSeed(close, i) && m != i && !OwnedBefore(close, m, i)
    ensures i < m && (Owns(close, i, m) <==> close(i, m))
  {
    if m < i {
      EarlierIsOwned(close, m, i);
    }
    if close(i, m) {
      forall k: nat | k < i ensures !Claims(close, k, m) {
        NoEarlierClaim(close, m, i, k);
      }
    }
  }

  lemma {:induction false} NoEarlierClaim(close: Closeness, m: nat, i: nat, k: nat)
    requires !OwnedBefore(close, m, i) && k < i
    ensures !Claims(close, k, m)
    decreases k
  {
    forall j: nat | j < k ensures !Claims(close, j, m) {
      NoEarlierClaim(close, m, i, j);
    }
    assert !Owns(close, k, m);
  }

  lemma OwnedBeforeNext(close: Closeness, m: nat, i: nat)
    ensures OwnedBefore(close, m, i + 1) <==> OwnedBefore(close, m, i) || Owns(close, i, m)
  {
  }

  lemma {:induction false} OwnsNothingEarlier(close: Closeness, ids: seq<string>, i: nat, n: nat)
    requires n <= i && n <= |ids|
    ensures OwnedBy(close, ids, i, n) == []
  {
    if n > 0 {
      OwnsNothingEarlier(close, ids, i, n - 1);
    }
  }

  /** In the inner loop of seed `i`, the patterns placed so far when position `k` is next. */
  ghost predicate PlacedSoFar(close: Closeness, ids: seq<string>, placed: set<string>, i: nat, k: nat) {
    forall m :: 0 <= m < |ids| ==>
      (ids[m] in placed <==> OwnedBefore(close, m, i) || m == i || (m < k && Owns(close, i, m)))
  }

  lemma PlacedAtStart(close: Closeness, ids: seq<string>, placed: set<string>, i: nat)
    requires StrictlySorted(ids) && i < |ids|
    requires forall m :: 0 <= m < |ids| ==> (ids[m] in placed <==> OwnedBefore(close, m, i))
    ensures PlacedSoFar(close, ids, placed + {ids[i]}, i, 0)
  {
    hide OwnedBefore, Owns, Below, StrictlySorted;
    forall m | 0 <= m < |ids| ensures ids[m] == ids[i] ==> m == i {
      SortedIsDistinct(ids, m, i);
    }
  }

  lemma PlacedAtEnd(close: Closeness, ids: seq<string>, placed: set<string>, i: nat)
    requires i < |ids| && IsSeed(close, i) && PlacedSoFar(close, ids, placed, i, |ids|)
    ensures forall m :: 0 <= m < |ids| ==> (ids[m] in placed <==> OwnedBefore(close, m, i + 1))
  {
    hide OwnedBefore, Owns;
    UnownedIsSeed(close, i);
    forall m | 0 <= m < |ids| ensures ids[m] in placed <==> OwnedBefore(close, m, i + 1) {
      OwnedBeforeNext(close, m, i);
    }
  }

  lemma PassPlaced(close: Closeness, ids: seq<string>, placed: set<string>, i: nat, k: nat)
    requires PlacedSoFar(close, ids, placed, i, k) && k < |ids| && ids[k] in placed
    ensures PlacedSoFar(close, ids, placed, i, k + 1) && (k != i ==> !Owns(close, i, k))
  {
    hide OwnedBefore, Owns;
    if OwnedBefore(close, k, i) {
      OwnedIsNotOwnedAgain(close, k, i);
    }
  }

  lemma PassUnplaced(close: Closeness, ids: seq<string>, placed: set<string>, i: nat, k: nat)
    requires StrictlySorted(ids) && IsSeed(close, i)
    requires PlacedSoFar(close, ids, placed, i, k) && k < |ids| && ids[k] !in placed
    ensures i < k && (Owns(close, i, k) <==> close(i, k))
    ensures PlacedSoFar(close, ids, if close(i, k) then placed + {ids[k]} else placed, i, k + 1)
  {
    hide OwnedBefore, Owns, Below, StrictlySorted;
    OwnsLater(close, i, k);
    forall m | 0 <= m < |ids| ensures ids[m] == ids[k] ==> m == k {
      SortedIsDistinct(ids, m, k);
    }
  }

  lemma OwnedIsNotOwnedAgain(close: Closeness, m: nat, i: nat)
    requires OwnedBefore(close, m, i)
    ensures !Owns(close, i, m)
  {
    var j: nat :| j < i && Owns(close, j, m);
    if Owns(close, i, m) {
      OwnerIsUnique(close, i, j, m);
    }
  }

  class ClusterEngine<F(!new)> {
    const threshold: real
    const similarity: (F, F) -> real

    /** A threshold outside (0, 1] is replaced by 0.6. */
    constructor (threshold: real, similarity: (F, F) -> real)
      ensures this.similarity == similarity && 0.0 < this.threshold <= 1.0
      ensures this.threshold == if threshold <= 0.0 || threshold > 1.0 then 0.6 else threshold
    {
      this.threshold := if threshold <= 0.0 || threshold > 1.0 then 0.6 else threshold;
      this.similarity := similarity;
    }

    /** Closeness of the patterns at two positions of `ids`. */
    ghost function CloseIn(patterns: Patterns<F>, ids: seq<string>): Closeness {
      (j: nat, i: nat) =>
        && j < |ids| && i < |ids| && ids[j] in patterns && ids[i] in patterns
        && similarity(patterns[ids[j]].fingerprint, patterns[ids[i]].fingerprint) >= threshold
    }

    /** The cluster of seed `j`: its members are what the seed owns, its figures are theirs. */
    ghost predicate Describes(patterns: Patterns<F>, ids: seq<string>, j: nat, c: Cluster<F>)
      requires j < |ids| && forall id :: id in ids ==> id in patterns
    {
      && c.members == OwnedBy(CloseIn(patterns, ids), ids, j, |ids|)
      && c.id == "cluster-" + ids[j]
      && c.caption == patterns[ids[j]].description && c.centroid == patterns[ids[j]].fingerprint
      && c.members != [] && (forall id :: id in c.members ==> id in patterns)
      && c.avgConfidence == TotalConfidence(patterns, c.members) / |c.members| as real
      && IsLatest(patterns, c.members, c.lastUpdated)
    }

    /** The inner loop: the seed at `i` collects every pattern it owns. */
    method Collect(patterns: Patterns<F>, ids: seq<string>, i: nat, placed: set<string>)
      returns (members: seq<string>, lastUpdated: int, placed': set<string>)
      requires StrictlySorted(ids) && forall id :: id in ids ==> id in patterns
      requires i < |ids| && IsSeed(CloseIn(patterns, ids), i)
      requires forall m :: 0 <= m < |ids| ==> (ids[m] in placed <==> OwnedBefore(CloseIn(patterns, ids), m, i))
      ensures members == OwnedBy(CloseIn(patterns, ids), ids, i, |ids|)
      ensures members != [] && (forall id :: id in members ==> id in patterns) && IsLatest(patterns, members, lastUpdated)
      ensures forall m :: 0 <= m < |ids| ==> (ids[m] in placed' <==> OwnedBefore(CloseIn(patterns, ids), m, i + 1))
    {
      hide IsSeed, Owns, OwnedBefore, Below, StrictlySorted, PlacedSoFar;
      ghost var close := CloseIn(patterns, ids);
      UnownedIsSeed(close, i);
      PlacedAtStart(close, ids, placed, i);
      members := [ids[i]];
      lastUpdated := patterns[ids[i]].lastSeen;
      placed' := placed + {ids[i]};
      for k := 0 to |ids|
        invariant PlacedSoFar(close, ids, placed', i, k)
        invariant members == if k <= i then [ids[i]] else OwnedBy(close, ids, i, k)
        invariant members != [] && forall id :: id in members ==> id in patterns
        invariant IsLatest(patterns, members, lastUpdated)
      {
        OwnsNothingEarlier(close, ids, i, if k <= i then k else 0);
        if ids[k] !in placed' {
          PassUnplaced(close, ids, placed', i, k);
          var oth := patterns[ids[k]];
          if similarity(patterns[ids[i]].fingerprint, oth.fingerprint) >= threshold {
            members := members + [ids[k]];
            placed' := placed' + {ids[k]};
            if oth.lastSeen > lastUpdated {
              lastUpdated := oth.lastSeen;
            }
          }
        } else {
          PassPlaced(close, ids, placed', i, k);
        }
      }
      PlacedAtEnd(close, ids, placed', i);
    }

    /** One cluster per seed, in the sorted order of their IDs. */
    method ClusterPatterns(patterns: Patterns<F>) returns (clusters: seq<Cluster<F>>)
      ensures var ids := Sorted(patterns.Keys);
              var seeds := Seeds(CloseIn(patterns, ids), |ids|);
              && |clusters| == |seeds|
              && forall c :: 0 <= c < |clusters| ==> seeds[c] < |ids| && Describes(patterns, ids, seeds[c], clusters[c])
    {
      hide IsSeed, Owns, Claims, OwnedBefore, Below, StrictlySorted, Sorted;
      var order := SortedIds(patterns.Keys);
      ghost var ids := order;
      ghost var close := CloseIn(patterns, ids);
      var placed: set<string> := {};
      clusters := [];
      forall m | 0 <= m < |ids| ensures !OwnedBefore(close, m, 0) {
        NothingOwnedYet(close, m);
      }
      for i := 0 to |order|
        invariant forall m :: 0 <= m < |ids| ==> (ids[m] in placed <==> OwnedBefore(close, m, i))
        invariant |clusters| == |Seeds(close, i)|
        invariant forall c :: 0 <= c < |clusters| ==>
                    Seeds(close, i)[c] < |ids| && Describes(patterns, ids, Seeds(close, i)[c], clusters[c])
      {
        UnownedIsSeed(close, i);
        if order[i] in placed {
          forall m | 0 <= m < |ids| ensures OwnedBefore(close, m, i + 1) <==> OwnedBefore(close, m, i) {
            OwnedBeforeNext(close, m, i);
            NonSeedOwnsNothing(close, i, m);
          }
          continue;
        }
        var p := patterns[order[i]];
        var members, lastUpdated;
        members, lastUpdated, placed := Collect(patterns, order, i, placed);
        var avg := AvgConfidence(members, patterns);
        var cluster := Cluster("cluster-" + order[i], p.description, p.fingerprint, members, avg, lastUpdated);
        assert Describes(patterns, ids, i, cluster);
        clusters := clusters + [cluster];
      }
    }

    static lemma NothingOwnedYet(close: Closeness, m: nat)
      ensures !OwnedBefore(close, m, 0)
    {
    }

    static lemma NonSeedOwnsNothing(close: Closeness, i: nat, m: nat)
      ensures !IsSeed(close, i) ==> !Owns(close, i, m)
    {
    }
  }

  /** The clusters partition the patterns: every ID is a member of exactly one, that of its first close seed. */
  lemma ClustersPartition<F(!new)>(engine: ClusterEngine<F>, patterns: Patterns<F>, ids: seq<string>, clusters: seq<Cluster<F>>, i: nat)
    requires ids == Sorted(patterns.Keys)
    requires var seeds := Seeds(engine.CloseIn(patterns, ids), |ids|);
             && |clusters| == |seeds|
             && forall c :: 0 <= c < |clusters| ==> seeds[c] < |ids| && engine.Describes(patterns, ids, seeds[c], clusters[c])
    requires i < |ids|
    ensures exists c ::
              && 0 <= c < |clusters| && ids[i] in clusters[c].members
              && Owns(engine.CloseIn(patterns, ids), Seeds(engine.CloseIn(patterns, ids), |ids|)[c], i)
              && forall d :: 0 <= d < |clusters| && ids[i] in clusters[d].members ==> d == c
  {
    hide IsSeed, Below, IsLatest, TotalConfidence;
    var close := engine.CloseIn(patterns, ids);
    var seeds := Seeds(close, |ids|);
    OwnerExists(close, i);
    var owner: nat :| owner <= i && Owns(close, owner, i);
    OwnerIsSeed(close, owner, i);
    SeedsMembership(close, |ids|, owner);
    var c :| 0 <= c < |seeds| && seeds[c] == owner;
    OwnedByMembership(close, ids, owner, |ids|, i);
    forall d | 0 <= d < |clusters| && ids[i] in clusters[d].members ensures d == c {
      OwnedByMembership(close, ids, seeds[d], |ids|, i);
      OwnerIsUnique(close, seeds[d], owner, i);
      SeedsIncrease(close, |ids|, c, d);
    }
  }

  lemma OwnerIsSeed(close: Closeness, j: nat, i: nat)
    requires Owns(close, j, i)
    ensures IsSeed(close, j) && j <= i
  {
  }

  lemma {:induction false} SeedsIncrease(close: Closeness, n: nat, c: nat, d: nat)
    requires c < |Seeds(close, n)| && d < |Seeds(close, n)|
    ensures Seeds(close, n)[c] == Seeds(close, n)[d] ==> c == d
  {
    if n > 0 {
      var front := Seeds(close, n - 1);
      if c < |front| && d < |front| {
        SeedsIncrease(close, n - 1, c, d);
      } else if c < |front| {
        SeedsMembership(close, n - 1, front[c]);
      } else if d < |front| {
        SeedsMembership(close, n - 1, front[d]);
      }
    }
  }

  // ------------------------------------------------- how close members are

  type Similar<!F> = (F, F) -> bool

  /** Patterns with these fingerprints, in the order of their IDs, under a similarity test. */
  ghost function Among<F>(similar: Similar<F>, prints: seq<F>): Closeness {
    (j: nat, i: nat) => j < |prints| && i < |prints| && similar(prints[j], prints[i])
  }

  /** What the documentation of the threshold promises: any two patterns of one cluster are similar. */
  ghost predicate MembersClose<F>(similar: Similar<F>, prints: seq<F>) {
    forall s, i, j :: 0 <= i < j < |prints| && Owns(Among(similar, prints), s, i) && Owns(Among(similar, prints), s, j) ==>
      similar(prints[i], prints[j])
  }

  /** Whatever is similar to one fingerprint is similar to each other. */
  ghost predicate IsEuclidean<F(!new)>(similar: Similar<F>) {
    forall x, y, z :: similar(x, y) && similar(x, z) ==> similar(y, z)
  }

  lemma EuclideanMembersClose<F(!new)>(similar: Similar<F>, prints: seq<F>)
    requires IsEuclidean(similar)
    ensures MembersClose(similar, prints)
  {
    var close := Among(similar, prints);
    forall s, i, j | 0 <= i < j < |prints| && Owns(close, s, i) && Owns(close, s, j)
      ensures similar(prints[i], prints[j])
    {
      assert close(s, j) && (s != i ==> close(s, i));
    }
  }

  /** The first of three patterns is a seed and takes both others if they are similar to it. */
  lemma FirstTakesBoth<F>(similar: Similar<F>, x: F, y: F, z: F)
    requires similar(x, y) && similar(x, z)
    ensures Owns(Among(similar, [x, y, z]), 0, 1) && Owns(Among(similar, [x, y, z]), 0, 2)
  {
    var close := Among(similar, [x, y, z]);
    assert IsSeed(close, 0);
    assert Claims(close, 0, 1) && Claims(close, 0, 2);
  }

  /**
   Members are compared with their seed only. Any two of them are similar, whatever the patterns, exactly if similarity
   carries over from two pairs with a common first fingerprint to the other two.
   */
  lemma MembersCloseExactly<F(!new)>(similar: Similar<F>)
    ensures (forall prints :: MembersClose(similar, prints)) <==> IsEuclidean(similar)
  {
    if IsEuclidean(similar) {
      forall prints ensures MembersClose(similar, prints) {
        EuclideanMembersClose(similar, prints);
      }
    } else {
      var x, y, z :| similar(x, y) && similar(x, z) && !similar(y, z);
      FirstTakesBoth(similar, x, y, z);
      assert !MembersClose(similar, [x, y, z]);
    }
  }
}
