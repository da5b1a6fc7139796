/** Facts about finite sets and sequences shared by the other modules. */
module Collections {

  ghost predicate Distinct<T>(s: seq<T>) {
    forall i, j :: 0 <= i < j < |s| ==> s[i] != s[j]
  }

  function Elements<T(==)>(s: seq<T>): set<T> {
    set x | x in s
  }

  function Repeat<T>(x: T, n: nat): seq<T> {
    seq(n, i => x)
  }

  /** 0, 1, ... up to `k`. */
  function Numbers(k: nat): seq<nat> {
    seq(k, i requires 0 <= i => i)
  }

  lemma {:induction false} DistinctSize<T>(s: seq<T>)
    requires Distinct(s)
    ensures |Elements(s)| == |s|
    ensures multiset(s) == multiset(Elements(s))
  {
    if s == [] {
    } else {
      var t := s[..|s| - 1];
      DistinctSize(t);
      assert s == t + [s[|s| - 1]];
      assert s[|s| - 1] !in t;
      assert Elements(s) == Elements(t) + {s[|s| - 1]};
    }
  }

  lemma SubsetNotLarger<T>(a: set<T>, b: set<T>)
    requires a <= b
    ensures |a| <= |b|
  {
    assert b == a + (b - a);
  }

  lemma SubsetOfSameSize<T>(a: set<T>, b: set<T>)
    requires a <= b && |a| == |b|
    ensures a == b
  {
    assert |b - a| == |b| - |a|;
    assert b == a + (b - a);
  }

  lemma WithAndWithout<T>(s: set<T>, x: T)
    ensures |s| == |s - {x}| + (if x in s then 1 else 0)
  {
    assert x in s ==> s == s - {x} + {x};
    assert x !in s ==> s == s - {x};
  }

  lemma ContainedIsNotLonger<T>(s: seq<T>, t: seq<T>)
    requires Distinct(s) && Distinct(t) && forall x :: x in s ==> x in t
    ensures |s| <= |t|
  {
    DistinctSize(s);
    DistinctSize(t);
    SubsetNotLarger(Elements(s), Elements(t));
  }
}
