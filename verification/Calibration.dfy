/**
 The Brier scores of pkg/eval/calibration.go over exact numbers. Classes are summed in arbitrary order. A choice is
 scored over its whole distribution of classes, a yes-or-no question over the one probability that was stated;
 decisions whose golden answer is not known are not graded. Each mean is over the graded decisions of its kind, and
 zero if there is none.
 */
module Calibrating {
  import opened Wrappers

  datatype Decision = Decision(
    kind: string,
    got: string,
    want: string,
    dist: map<string, real>,
    wantBool: Option<bool>,
    noulValue: Option<real>
  )

  // ------------------------------------------------------------ finite sums

  ghost function Sum(cs: set<string>, f: string -> real): real {
    if cs == {} then 0.0
    else
      var c :| c in cs;
      f(c) + Sum(cs - {c}, f)
  }

  /** The order of summation does not matter. */
  lemma {:induction false} SumPick(cs: set<string>, f: string -> real, c: string)
    requires c in cs
    ensures Sum(cs, f) == f(c) + Sum(cs - {c}, f)
    decreases cs
  {
    var d :| d in cs && Sum(cs, f) == f(d) + Sum(cs - {d}, f);
    if d != c {
      SumPick(cs - {d}, f, c);
      SumPick(cs - {c}, f, d);
      assert cs - {d} - {c} == cs - {c} - {d};
    }
  }

  lemma SumEmpty(f: string -> real)
    ensures Sum({}, f) == 0.0
  {
  }

  lemma {:induction false} SumAgrees(cs: set<string>, f: string -> real, g: string -> real)
    requires forall c :: c in cs ==> f(c) == g(c)
    ensures Sum(cs, f) == Sum(cs, g)
  {
    if cs != {} {
      var c :| c in cs;
      SumPick(cs, f, c);
      SumPick(cs, g, c);
      SumAgrees(cs - {c}, f, g);
    }
  }

  lemma {:induction false} SumNonNegative(cs: set<string>, f: string -> real)
    requires forall c :: c in cs ==> f(c) >= 0.0
    ensures Sum(cs, f) >= 0.0
  {
    if cs != {} {
      var c :| c in cs;
      SumPick(cs, f, c);
      SumNonNegative(cs - {c}, f);
    }
  }

  function Times(x: real, y: real): real {
    x * y
  }

  function Sq(x: real): real {
    Times(x, x)
  }

  lemma TimesSign(x: real, y: real)
    ensures x > 0.0 && y > 0.0 ==> Times(x, y) > 0.0
    ensures x >= 0.0 && y >= 0.0 ==> Times(x, y) >= 0.0
    ensures x == 0.0 ==> Times(x, y) == 0.0
    ensures Times(-x, -y) == Times(x, y)
    ensures Times(x, 1.0 - y) == x - Times(x, y)
  {
  }

  lemma TimesOfSums(x: real, y: real, u: real, v: real)
    ensures Times(x + y, u + v) == Times(x, u) + Times(x, v) + Times(y, u) + Times(y, v)
  {
  }

  lemma SqFacts(x: real)
    ensures Sq(x) >= 0.0 && Sq(-x) == Sq(x)
    ensures Sq(x) == 0.0 <==> x == 0.0
    ensures 0.0 <= x <= 1.0 ==> Sq(x) <= 1.0
  {
    hide Times;
    TimesSign(x, x);
    TimesSign(-x, -x);
    TimesSign(x, 1.0 - x);
  }

  lemma SqOfSum(x: real, y: real)
    requires x >= 0.0 && y >= 0.0
    ensures Sq(x) + Sq(y) <= Sq(x + y)
  {
    hide Times;
    TimesOfSums(x, y, x, y);
    TimesSign(x, y);
    TimesSign(y, x);
  }

  /** Squares of non-negative numbers add up to at most the square of their sum. */
  lemma {:induction false} SumOfSquares(cs: set<string>, f: string -> real, g: string -> real)
    requires forall c :: c in cs ==> f(c) >= 0.0 && g(c) == Sq(f(c))
    ensures 0.0 <= Sum(cs, g) <= Sq(Sum(cs, f))
    ensures Sum(cs, f) >= 0.0
  {
    SumNonNegative(cs, f);
    if cs == {} {
      SqFacts(0.0);
    } else {
      hide Sq;
      var c :| c in cs;
      SumPick(cs, f, c);
      SumPick(cs, g, c);
      SumOfSquares(cs - {c}, f, g);
      SqFacts(f(c));
      SqOfSum(f(c), Sum(cs - {c}, f));
    }
  }

  // ------------------------------------------------------ one choice decision

  function Probability(dist: map<string, real>, c: string): real {
    if c in dist then dist[c] else 0.0
  }

  function Deviation(dist: map<string, real>, want: string, c: string): real {
    Sq(Probability(dist, c) - (if c == want then 1.0 else 0.0))
  }

  function Deviations(dist: map<string, real>, want: string): string -> real {
    c => Deviation(dist, want, c)
  }

  function Probabilities(dist: map<string, real>): string -> real {
    c => Probability(dist, c)
  }

  function Squares(dist: map<string, real>): string -> real {
    c => Sq(Probability(dist, c))
  }

  /** The sum of squared deviations over the classes of the distribution and the golden class. */
  ghost function Score(dist: map<string, real>, want: string): real {
    Sum(dist.Keys + {want}, Deviations(dist, want))
  }

  /** An empty distribution stands for certainty in the model's pick. */
  function EffectiveDist(d: Decision): map<string, real> {
    if d.dist == map[] then map[d.got := 1.0] else d.dist
  }

  ghost function ChoiceScore(d: Decision): real {
    Score(EffectiveDist(d), d.want)
  }

  /** Non-negative, adding up to at most one. */
  ghost predicate SubDistribution(dist: map<string, real>) {
    && (forall c :: c in dist ==> dist[c] >= 0.0)
    && Sum(dist.Keys, Probabilities(dist)) <= 1.0
  }

  method MulticlassBrier(d: Decision) returns (sum: real)
    ensures sum == ChoiceScore(d)
  {
    var dist := EffectiveDist(d);
    var classes := dist.Keys + {d.want};
    ghost var term := Deviations(dist, d.want);
    hide Sum;
    sum := 0.0;
    var rest := classes;
    while rest != {}
      invariant rest <= classes
      invariant sum + Sum(rest, term) == Sum(classes, term)
      decreases rest
    {
      var c :| c in rest;
      SumPick(rest, term, c);
      var target := if c == d.want then 1.0 else 0.0;
      var diff := Probability(dist, c) - target;
      sum := sum + diff * diff;
      rest := rest - {c};
    }
    SumEmpty(term);
  }

  /** The golden class apart from the others. */
  lemma SplitScore(dist: map<string, real>, want: string)
    ensures var others := dist.Keys - {want};
            Score(dist, want) == Deviation(dist, want, want) + Sum(others, Squares(dist))
  {
    var all := dist.Keys + {want};
    SumPick(all, Deviations(dist, want), want);
    assert all - {want} == dist.Keys - {want};
    SumAgrees(dist.Keys - {want}, Deviations(dist, want), Squares(dist));
  }

  lemma OthersShareTheRest(dist: map<string, real>, want: string)
    requires SubDistribution(dist)
    ensures var rest := Sum(dist.Keys - {want}, Probabilities(dist));
            0.0 <= rest <= 1.0 - Probability(dist, want) && Probability(dist, want) >= 0.0
  {
    SumNonNegative(dist.Keys - {want}, Probabilities(dist));
    if want in dist {
      SumPick(dist.Keys, Probabilities(dist), want);
    } else {
      assert dist.Keys - {want} == dist.Keys;
    }
  }

  lemma TwoSquares(p: real, rest: real, squares: real)
    requires 0.0 <= p && 0.0 <= rest <= 1.0 - p && 0.0 <= squares <= Sq(rest)
    ensures 0.0 <= Sq(p - 1.0) + squares <= 2.0
    ensures Sq(p - 1.0) + squares == 0.0 <==> p == 1.0
  {
    hide Sq;
    SqFacts(p - 1.0);
    SqFacts(1.0 - p);
    SqFacts(rest);
    assert 1.0 - p == -(p - 1.0);
  }

  lemma NonNegative(dist: map<string, real>)
    requires SubDistribution(dist)
    ensures forall c :: Probability(dist, c) >= 0.0
  {
  }

  /** The score lies between 0 and 2, and is 0 exactly when the golden class has all the probability. */
  lemma ScoreRange(dist: map<string, real>, want: string)
    requires SubDistribution(dist)
    ensures 0.0 <= Score(dist, want) <= 2.0
    ensures Score(dist, want) == 0.0 <==> Probability(dist, want) == 1.0
  {
    hide Sum, Sq, Score, SubDistribution;
    var others := dist.Keys - {want};
    SplitScore(dist, want);
    OthersShareTheRest(dist, want);
    NonNegative(dist);
    SumOfSquares(others, Probabilities(dist), Squares(dist));
    TwoSquares(Probability(dist, want), Sum(others, Probabilities(dist)),
               Sum(others, Squares(dist)));
  }

  /** A class of probability zero does not change the score of a distribution. */
  lemma ZeroClassDoesNotScore(dist: map<string, real>, want: string, c: string)
    requires c !in dist
    ensures Score(dist[c := 0.0], want) == Score(dist, want)
  {
    var more := dist[c := 0.0];
    SumAgrees(dist.Keys + {want}, Deviations(dist, want), Deviations(more, want));
    if c == want {
      assert more.Keys + {want} == dist.Keys + {want};
    } else {
      SumPick(more.Keys + {want}, Deviations(more, want), c);
      assert more.Keys + {want} - {c} == dist.Keys + {want};
    }
  }

  /** A certain pick scores 0 if it is right and 2 if it is wrong. */
  lemma OneHotScore(got: string, want: string)
    ensures Score(map[got := 1.0], want) == if got == want then 0.0 else 2.0
  {
    var dist := map[got := 1.0];
    SplitScore(dist, want);
    if got == want {
      assert dist.Keys - {want} == {};
    } else {
      assert dist.Keys - {want} == {got};
      SumPick({got}, Squares(dist), got);
      assert {got} - {got} == {};
    }
  }

  /** For a decision, adding a class of probability zero is harmless exactly when a distribution was reported. */
  lemma ZeroClassHarmlessExactly(d: Decision, c: string)
    requires c !in d.dist
    ensures ChoiceScore(d.(dist := d.dist[c := 0.0])) == ChoiceScore(d) <==> d.dist != map[]
  {
    var more := d.dist[c := 0.0];
    assert c in more;
    if d.dist == map[] {
      OneHotScore(d.got, d.want);
      ZeroClassDoesNotScore(d.dist, d.want, c);
      SplitScore(d.dist, d.want);
      assert d.dist.Keys - {d.want} == {};
    } else {
      ZeroClassDoesNotScore(d.dist, d.want, c);
    }
  }

  // ----------------------------------------------------------------- the means

  predicate GradedChoice(d: Decision) {
    d.kind == "choice" && d.want != ""
  }

  predicate GradedNoul(d: Decision) {
    d.kind == "noul" && d.wantBool.Some? && d.noulValue.Some?
  }

  function NoulScore(d: Decision): real
    requires GradedNoul(d)
  {
    Sq(d.noulValue.value - (if d.wantBool.value then 1.0 else 0.0))
  }

  /** A stated probability scores 0 exactly if it is that of the golden answer, and 1 at the other end of [0, 1] only. */
  lemma NoulScoreExactly(d: Decision)
    requires GradedNoul(d)
    ensures NoulScore(d) >= 0.0
    ensures NoulScore(d) == 0.0 <==> d.noulValue.value == if d.wantBool.value then 1.0 else 0.0
    ensures 0.0 <= d.noulValue.value <= 1.0 ==>
              NoulScore(d) <= 1.0 && (NoulScore(d) == 1.0 <==> d.noulValue.value == if d.wantBool.value then 0.0 else 1.0)
  {
    hide Sq;
    var p := d.noulValue.value;
    var far := if d.wantBool.value then 1.0 - p else p;
    SqFacts(far);
    SqFacts(p - 1.0);
    assert d.wantBool.value ==> p - 1.0 == -far;
    SqIsOne(far);
  }

  lemma SqIsOne(x: real)
    ensures 0.0 <= x <= 1.0 ==> (Sq(x) == 1.0 <==> x == 1.0)
  {
    TimesSign(x, x);
    TimesSign(x, 1.0 - x);
  }

  /** Totals and counts over a list of decisions, one pair per kind. */
  datatype Totals = Totals(choice: real, noul: real, choiceN: nat, noulN: nat)

  ghost function TotalsOf(ds: seq<Decision>): Totals {
    if ds == [] then Totals(0.0, 0.0, 0, 0)
    else
      var t, d := TotalsOf(ds[..|ds| - 1]), ds[|ds| - 1];
      if GradedChoice(d) then t.(choice := t.choice + ChoiceScore(d), choiceN := t.choiceN + 1)
      else if GradedNoul(d) then t.(noul := t.noul + NoulScore(d), noulN := t.noulN + 1)
      else t
  }

  function Flatten(records: seq<seq<Decision>>): seq<Decision> {
    if records == [] then [] else Flatten(records[..|records| - 1]) + records[|records| - 1]
  }

  function Quotient(total: real, n: nat): real {
    if n > 0 then total / n as real else 0.0
  }

  /** Each mean is over the decisions of its own kind; decisions that are not graded count for neither. */
  method MeanBriers(records: seq<seq<Decision>>) returns (choice: real, noul: real, choiceN: nat, noulN: nat)
    ensures var t := TotalsOf(Flatten(records));
            && choiceN == t.choiceN && noulN == t.noulN
            && choice == Quotient(t.choice, t.choiceN) && noul == Quotient(t.noul, t.noulN)
  {
    hide ChoiceScore, Sq, Quotient;
    var choiceSum, noulSum := 0.0, 0.0;
    choiceN, noulN := 0, 0;
    for i := 0 to |records|
      invariant Totals(choiceSum, noulSum, choiceN, noulN) == TotalsOf(Flatten(records[..i]))
    {
      var r := records[i];
      ghost var before := Flatten(records[..i]);
      assert before + r[..0] == before;
      for j := 0 to |r|
        invariant Totals(choiceSum, noulSum, choiceN, noulN) == TotalsOf(before + r[..j])
      {
        var d := r[j];
        assert before + r[..j + 1] == (before + r[..j]) + [d];
        assert (before + r[..j + 1])[..|before| + j] == before + r[..j];
        if d.kind == "choice" && d.want != "" {
          var s := MulticlassBrier(d);
          choiceSum, choiceN := choiceSum + s, choiceN + 1;
        } else if d.kind == "noul" && d.wantBool.Some? && d.noulValue.Some? {
          var y := if d.wantBool.value then 1.0 else 0.0;
          noulSum, noulN := noulSum + Sq(d.noulValue.value - y), noulN + 1;
        }
      }
      assert r[..|r|] == r;
      assert records[..i + 1][..i] == records[..i];
    }
    assert records[..|records|] == records;
    QuotientIs(choiceSum, choiceN);
    QuotientIs(noulSum, noulN);
    choice := if choiceN > 0 then choiceSum / choiceN as real else 0.0;
    noul := if noulN > 0 then noulSum / noulN as real else 0.0;
  }

  lemma QuotientIs(total: real, n: nat)
    ensures n > 0 ==> Quotient(total, n) == total / n as real
    ensures n == 0 ==> Quotient(total, n) == 0.0
  {
  }

  lemma QuotientRange(total: real, n: nat, bound: real)
    requires 0.0 <= total <= bound * n as real && bound >= 0.0
    ensures 0.0 <= Quotient(total, n) <= bound
  {
    if n > 0 {
      var q := total / n as real;
      assert q * n as real == total;
    }
  }

  /** A graded decision with a proper distribution, or with a value between 0 and 1. */
  ghost predicate ProperlyReported(d: Decision) {
    (GradedChoice(d) ==> SubDistribution(EffectiveDist(d))) && (GradedNoul(d) ==> 0.0 <= d.noulValue.value <= 1.0)
  }

  lemma {:induction false} TotalsInRange(ds: seq<Decision>)
    requires forall i :: 0 <= i < |ds| ==> ProperlyReported(ds[i])
    ensures var t := TotalsOf(ds);
            0.0 <= t.choice <= 2.0 * t.choiceN as real && 0.0 <= t.noul <= t.noulN as real
  {
    hide Score, Sq, SubDistribution;
    if ds != [] {
      var d := ds[|ds| - 1];
      TotalsInRange(ds[..|ds| - 1]);
      assert ProperlyReported(d);
      if GradedChoice(d) {
        ScoreRange(EffectiveDist(d), d.want);
      } else if GradedNoul(d) {
        SqFacts(d.noulValue.value - (if d.wantBool.value then 1.0 else 0.0));
        SqFacts((if d.wantBool.value then 1.0 else 0.0) - d.noulValue.value);
      }
    }
  }

  /** The choice mean stays in [0, 2] and the noul mean in [0, 1]. */
  lemma MeansInRange(ds: seq<Decision>)
    requires forall i :: 0 <= i < |ds| ==> ProperlyReported(ds[i])
    ensures 0.0 <= Quotient(TotalsOf(ds).choice, TotalsOf(ds).choiceN) <= 2.0
    ensures 0.0 <= Quotient(TotalsOf(ds).noul, TotalsOf(ds).noulN) <= 1.0
  {
    hide TotalsOf, Quotient;
    TotalsInRange(ds);
    QuotientRange(TotalsOf(ds).choice, TotalsOf(ds).choiceN, 2.0);
    QuotientRange(TotalsOf(ds).noul, TotalsOf(ds).noulN, 1.0);
  }

  /** Certainty in the model's pick is a proper report, so an empty distribution is one too. */
  lemma EmptyIsProper(d: Decision)
    requires d.dist == map[]
    ensures SubDistribution(EffectiveDist(d))
    ensures ChoiceScore(d) == if d.got == d.want then 0.0 else 2.0
  {
    OneHotScore(d.got, d.want);
    var dist := map[d.got := 1.0];
    assert dist.Keys == {d.got};
    SumPick({d.got}, Probabilities(dist), d.got);
    assert {d.got} - {d.got} == {};
  }
}
