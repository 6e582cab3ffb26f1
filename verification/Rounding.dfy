/** Why the tolerances of the response checks suffice: rounding a true answer never breaks them. */
module Rounding {
  import opened Wrappers
  import opened Question
  import opened Response
  import opened Provider

  /** A provider's rounding: monotone on [0, top], off by at most `eps`, exact on integers. */
  ghost predicate Rounds(r: real -> real, eps: real, top: nat) {
    && (forall x, y :: 0.0 <= x <= y <= top as real ==> r(x) <= r(y))
    && (forall x :: 0.0 <= x <= top as real ==> Abs(r(x) - x) <= eps)
    && (forall x :: 0.0 <= x <= top as real && x.Floor as real == x ==> r(x) == x)
  }

  function Rounded(r: real -> real, ps: seq<real>): (rs: seq<real>)
    ensures |rs| == |ps| && forall i | 0 <= i < |ps| :: rs[i] == r(ps[i])
  {
    seq(|ps|, i requires 0 <= i < |ps| => r(ps[i]))
  }

  ghost predicate AllUnit(ps: seq<real>) {
    forall i | 0 <= i < |ps| :: InUnit(ps[i])
  }

  ghost predicate TrueDistribution(ps: seq<real>) {
    AllUnit(ps) && Sum(ps) == 1.0
  }

  // ---- Multiples, as repeated addition ----

  function Times(n: nat, x: real): real {
    if n == 0 then 0.0 else x + Times(n - 1, x)
  }

  lemma {:induction false} TimesIsProduct(n: nat, x: real)
    ensures Times(n, x) == n as real * x
  {
    if n > 0 {
      TimesIsProduct(n - 1, x);
      var m := (n - 1) as real;
      assert (m + 1.0) * x == m * x + x;
    }
  }

  lemma {:induction false} TimesClose(k: nat, x: real, y: real, eps: real)
    requires Abs(x - y) <= eps
    ensures Abs(Times(k, x) - Times(k, y)) <= Times(k, eps)
  {
    if k > 0 {
      TimesClose(k - 1, x, y, eps);
    }
  }

  lemma {:induction false} TimesAdds(m: nat, n: nat, x: real)
    ensures Times(m + n, x) == Times(m, x) + Times(n, x)
  {
    if m > 0 {
      TimesAdds(m - 1, n, x);
    }
  }

  lemma {:induction false} TimesGrows(k: nat, top: nat, x: real)
    requires k <= top && x >= 0.0
    ensures 0.0 <= Times(k, x) <= Times(top, x)
  {
    if k > 0 {
      TimesGrows(k - 1, top - 1, x);
    } else if top > 0 {
      TimesGrows(0, top - 1, x);
    }
  }

  lemma {:induction false} TimesSplits(k: nat, x: real, y: real)
    ensures Times(k, x + y) == Times(k, x) + Times(k, y)
  {
    if k > 0 {
      TimesSplits(k - 1, x, y);
    }
  }

  /** `Weighted` as repeated addition. */
  function Levelled(ps: seq<real>, level: nat): real {
    if ps == [] then 0.0 else Times(level, ps[0]) + Levelled(ps[1..], level + 1)
  }

  lemma {:induction false} LevelledIsWeighted(ps: seq<real>, level: nat)
    ensures Levelled(ps, level) == Weighted(ps, level)
    decreases |ps|
  {
    if ps != [] {
      LevelledIsWeighted(ps[1..], level + 1);
      TimesIsProduct(level, ps[0]);
    }
  }

  /** The sum of `n` levels counted from `level`. */
  function Levels(level: nat, n: nat): nat
    decreases n
  {
    if n == 0 then 0 else level + Levels(level + 1, n - 1)
  }

  lemma {:induction false} LevelsFormula(level: nat, n: nat)
    ensures 2 * Levels(level, n) == n * (2 * level + n - 1)
    decreases n
  {
    if n > 0 {
      LevelsFormula(level + 1, n - 1);
    }
  }

  // ---- Errors add up ----

  ghost predicate Close(rs: seq<real>, ps: seq<real>, eps: real) {
    |rs| == |ps| && forall i | 0 <= i < |rs| :: Abs(rs[i] - ps[i]) <= eps
  }

  lemma {:induction false} SumClose(rs: seq<real>, ps: seq<real>, eps: real)
    requires Close(rs, ps, eps)
    ensures Abs(Sum(rs) - Sum(ps)) <= Times(|ps|, eps)
  {
    if ps != [] {
      SumClose(rs[1..], ps[1..], eps);
    }
  }

  /** The error of a level counts as often as its number. */
  lemma {:induction false} LevelledClose(rs: seq<real>, ps: seq<real>, level: nat, eps: real)
    requires Close(rs, ps, eps)
    ensures Abs(Levelled(rs, level) - Levelled(ps, level)) <= Times(Levels(level, |ps|), eps)
    decreases |ps|
  {
    if ps != [] {
      LevelledClose(rs[1..], ps[1..], level + 1, eps);
      TimesClose(level, rs[0], ps[0], eps);
      TimesAdds(level, Levels(level + 1, |ps| - 1), eps);
    }
  }

  /** The expectation of a distribution lies between the lowest and the highest level. */
  lemma {:induction false} LevelledBounds(ps: seq<real>, level: nat, top: nat)
    requires AllUnit(ps) && level + |ps| <= top + 1
    ensures 0.0 <= Levelled(ps, level) <= Times(top, Sum(ps))
    decreases |ps|
  {
    if ps != [] {
      LevelledBounds(ps[1..], level + 1, top);
      TimesGrows(level, top, ps[0]);
      TimesSplits(top, ps[0], Sum(ps[1..]));
    } else {
      TimesGrows(0, top, 0.0);
    }
  }

  // ---- Rounded answers pass ----

  lemma RoundedUnit(r: real -> real, eps: real, ps: seq<real>)
    requires Rounds(r, eps, 1) && AllUnit(ps)
    ensures AllUnit(Rounded(r, ps)) && Close(Rounded(r, ps), ps, eps)
  {
    assert r(0.0) == 0.0 && r(1.0) == 1.0;
  }

  lemma NarrowerRounds(r: real -> real, eps: real, top: nat)
    requires Rounds(r, eps, top) && top >= 1
    ensures Rounds(r, eps, 1)
  {
  }

  /** The distribution check accepts every rounded distribution. */
  lemma DistributionComplete(r: real -> real, eps: real, ps: seq<real>, keys: seq<string>, m: map<string, real>)
    requires TrueDistribution(ps) && Rounds(r, eps, 1)
    requires |ps| == |keys| && Distinct(keys)
    requires m.Keys == (set k | k in keys) && forall i | 0 <= i < |keys| :: m[keys[i]] == r(ps[i])
    ensures DistributionOf(m, keys, eps) == Ok(Rounded(r, ps))
  {
    var rs := Rounded(r, ps);
    RoundedUnit(r, eps, ps);
    SumComplete(rs, ps, eps);
    forall i | 0 <= i < |keys| ensures keys[i] in m && rs[i] == m[keys[i]] && InUnit(rs[i]) {
      assert keys[i] in keys;
    }
    DistributionMeaning(m, keys, eps, rs);
  }

  lemma SumComplete(rs: seq<real>, ps: seq<real>, eps: real)
    requires Close(rs, ps, eps) && Sum(ps) == 1.0
    ensures Abs(Sum(rs) - 1.0) <= SumTolerance(|ps|, eps)
  {
    SumClose(rs, ps, eps);
    TimesIsProduct(|ps|, eps);
  }

  lemma WeightedBounds(ps: seq<real>)
    requires |ps| > 1 && TrueDistribution(ps)
    ensures 0.0 <= Weighted(ps, 0) <= (|ps| - 1) as real
  {
    LevelledIsWeighted(ps, 0);
    LevelledBounds(ps, 0, |ps| - 1);
    TimesIsProduct(|ps| - 1, 1.0);
  }

  lemma WeightedClose(rs: seq<real>, ps: seq<real>, eps: real)
    requires Close(rs, ps, eps)
    ensures Abs(Weighted(rs, 0) - Weighted(ps, 0)) <= Times(Levels(0, |ps|), eps)
  {
    LevelledClose(rs, ps, 0, eps);
    LevelledIsWeighted(ps, 0);
    LevelledIsWeighted(rs, 0);
  }

  /** The expectation check accepts every rounded score of a rounded distribution. */
  lemma ExpectationComplete(r: real -> real, eps: real, ps: seq<real>)
    requires |ps| > 1 && TrueDistribution(ps) && Rounds(r, eps, |ps| - 1)
    ensures Expectation(r(Weighted(ps, 0)), Rounded(r, ps), eps) == Ok(r(Weighted(ps, 0)))
  {
    WeightedBounds(ps);
    RoundedScore(r, eps, |ps| - 1, Weighted(ps, 0));
    NarrowerRounds(r, eps, |ps| - 1);
    RoundedUnit(r, eps, ps);
    WeightedClose(Rounded(r, ps), ps, eps);
    ScoreToleranceCovers(|ps|, eps);
  }

  lemma RoundedScore(r: real -> real, eps: real, top: nat, e: real)
    requires Rounds(r, eps, top) && 0.0 <= e <= top as real
    ensures 0.0 <= r(e) <= top as real && Abs(r(e) - e) <= eps
  {
    assert r(0.0) == 0.0 && r(top as real) == top as real;
  }

  lemma ScoreToleranceCovers(n: nat, eps: real)
    ensures Times(Levels(0, n), eps) + eps <= ScoreTolerance(n, eps)
  {
    LevelsFormula(0, n);
    TimesIsProduct(Levels(0, n), eps);
    var half := n as real * (n as real - 1.0) / 2.0;
    assert Levels(0, n) as real == half by {
      assert 2.0 * Levels(0, n) as real == (n * (n - 1)) as real;
      assert (n * (n - 1)) as real == n as real * (n as real - 1.0);
    }
    assert eps * (half + 1.0) == half * eps + eps;
  }

  /** Rounding commutes with the maximum because it is monotone. */
  lemma {:induction false} RoundedMax(r: real -> real, eps: real, ps: seq<real>)
    requires AllUnit(ps) && Rounds(r, eps, 1)
    ensures MaxOf(Rounded(r, ps)) == r(MaxOf(ps)) && InUnit(MaxOf(ps))
  {
    if ps == [] {
      assert r(0.0) == 0.0;
    } else {
      RoundedMax(r, eps, ps[1..]);
      assert Rounded(r, ps)[1..] == Rounded(r, ps[1..]);
    }
  }

  /** A most probable option is still one after rounding. */
  lemma RoundedArgmax(r: real -> real, eps: real, ps: seq<real>, index: nat)
    requires AllUnit(ps) && Rounds(r, eps, 1) && index < |ps| && IsArgmax(ps, index)
    ensures IsArgmax(Rounded(r, ps), index)
  {
  }

  // ---- Honest answers ----

  /** What a model believes about a question, before rounding. */
  datatype Judgement = Chance(p: real) | Shares(ps: seq<real>)

  function TopOf(truth: Judgement): real {
    match truth
    case Chance(p) => Max(p, 1.0 - p)
    case Shares(ps) => MaxOf(ps)
  }

  /** `probabilities` lists the rounded shares under their labels, in any order. */
  ghost predicate Lists(probabilities: Entries<real>, labels: seq<string>, ps: seq<real>, r: real -> real) {
    && |ps| == |labels|
    && ToMap(probabilities).Keys == (set k | k in labels)
    && forall i | 0 <= i < |labels| :: ToMap(probabilities)[labels[i]] == r(ps[i])
  }

  /** The probabilities and scores of `answer` are rounded from `truth`, for a question of this kind. */
  ghost predicate RoundedFrom(kind: QuestionKind, truth: Judgement, r: real -> real, eps: real, answer: WireAnswer) {
    match (kind, truth, answer)
    case (Noul(_, _), Chance(p), WireNoul(noul, _, _)) =>
      Rounds(r, eps, 1) && InUnit(p) && noul == r(p)
    case (Choice(_), Shares(ps), WireChoice(choice, probabilities, _, _)) =>
      Rounds(r, eps, 1) && TrueDistribution(ps) && Lists(probabilities, LabelsOf(kind), ps, r)
      && (exists i | 0 <= i < |ps| :: LabelsOf(kind)[i] == choice && IsArgmax(ps, i))
    case (Score(_), Shares(ps), WireScore(score, probabilities, _, _)) =>
      |ps| > 1 && Rounds(r, eps, |ps| - 1) && TrueDistribution(ps) && Lists(probabilities, LabelsOf(kind), ps, r)
      && score == r(Weighted(ps, 0))
    case _ => false
  }

  /** `answer` carries the rounded values of `truth`. */
  ghost predicate Reports(answer: DecisionAnswer, truth: Judgement, r: real -> real) {
    match (answer, truth)
    case (NoulAnswer(pYes, _), Chance(p)) => pYes == r(p)
    case (ChoiceAnswer(_, probabilities, _, _), Shares(ps)) => probabilities == Rounded(r, ps)
    case (ScoreAnswer(expected, probabilities, _, _), Shares(ps)) =>
      probabilities == Rounded(r, ps) && expected == r(Weighted(ps, 0))
    case _ => false
  }

  lemma RoundedInUnit(r: real -> real, eps: real, top: nat, x: real)
    requires Rounds(r, eps, top) && top >= 1 && InUnit(x)
    ensures InUnit(r(x))
  {
    assert r(0.0) == 0.0 && r(1.0) == 1.0;
    assert r(0.0) <= r(x) <= r(1.0);
  }

  lemma ChoiceComplete(kind: QuestionKind, truth: Judgement, r: real -> real, eps: real, answer: WireAnswer)
    requires kind.Choice? && GoodKind(kind) && RoundedFrom(kind, truth, r, eps, answer)
    ensures LabelIndex(LabelsOf(kind), answer.choice).Ok?
    ensures DistributionOf(ToMap(answer.probabilities), LabelsOf(kind), eps) == Ok(Rounded(r, truth.ps))
    ensures IsArgmax(Rounded(r, truth.ps), LabelIndex(LabelsOf(kind), answer.choice).value)
    ensures r(TopOf(truth)) == MaxOf(Rounded(r, truth.ps)) && InUnit(r(TopOf(truth)))
  {
    var labels, ps := LabelsOf(kind), truth.ps;
    LabelsDistinct(kind);
    var i :| 0 <= i < |ps| && labels[i] == answer.choice && IsArgmax(ps, i);
    assert answer.choice in labels;
    assert LabelIndex(labels, answer.choice).value == i;
    DistributionComplete(r, eps, ps, labels, ToMap(answer.probabilities));
    RoundedArgmax(r, eps, ps, i);
    MaxComplete(r, eps, ps);
  }

  lemma MaxComplete(r: real -> real, eps: real, ps: seq<real>)
    requires TrueDistribution(ps) && Rounds(r, eps, 1)
    ensures r(MaxOf(ps)) == MaxOf(Rounded(r, ps)) && InUnit(r(MaxOf(ps)))
  {
    RoundedMax(r, eps, ps);
    MaxInUnit(ps);
    RoundedInUnit(r, eps, 1, MaxOf(ps));
  }

  lemma {:induction false} MaxInUnit(ps: seq<real>)
    requires AllUnit(ps)
    ensures InUnit(MaxOf(ps))
  {
    if ps != [] {
      MaxInUnit(ps[1..]);
    }
  }

  lemma ScoreComplete(kind: QuestionKind, truth: Judgement, r: real -> real, eps: real, answer: WireAnswer)
    requires kind.Score? && GoodKind(kind) && RoundedFrom(kind, truth, r, eps, answer)
    ensures DistributionOf(ToMap(answer.probabilities), LabelsOf(kind), eps) == Ok(Rounded(r, truth.ps))
    ensures Expectation(answer.score, Rounded(r, truth.ps), eps) == Ok(answer.score)
    ensures r(TopOf(truth)) == MaxOf(Rounded(r, truth.ps)) && InUnit(r(TopOf(truth)))
  {
    var ps := truth.ps;
    LabelsDistinct(kind);
    NarrowerRounds(r, eps, |ps| - 1);
    DistributionComplete(r, eps, ps, LabelsOf(kind), ToMap(answer.probabilities));
    ExpectationComplete(r, eps, ps);
    MaxComplete(r, eps, ps);
  }

  // ---- Decimals ----

  lemma FloorMonotone(x: real, y: real)
    requires x <= y
    ensures x.Floor <= y.Floor
  {
  }

  lemma FloorHalf(n: int)
    ensures (n as real + 0.5).Floor == n
  {
  }

  /** A rounding, value by value. */
  lemma RoundsWhen(r: real -> real, eps: real, top: nat)
    requires forall x, y | x <= y :: r(x) <= r(y)
    requires forall x :: Abs(r(x) - x) <= eps
    requires forall x: real | x.Floor as real == x :: r(x) == x
    ensures Rounds(r, eps, top)
  {
  }
}
