/** Responses of TypeSafe Jev. */
module Jev {
  import opened Wrappers
  import opened Question
  import opened Response
  import opened Provider
  import opened Rounding

  const EPS := 0.005
  const ALIASES: seq<string> := ["jev-latest", "jev-preview"]
  const MAX_SCORE_LEVELS := 10

  /** `validate`: one issue for each score question with too many levels. */
  method Validate(questions: seq<QuestionSpec>, issues: seq<Issue>) returns (r: seq<Issue>)
    ensures r == issues + LevelIssues(questions, MAX_SCORE_LEVELS)
    ensures ReportsLevels(r[|issues|..], questions, MAX_SCORE_LEVELS)
  {
    r := issues;
    assert LevelIssues([], MAX_SCORE_LEVELS) == [];
    for index := 0 to |questions|
      invariant r == issues + LevelIssues(questions[..index], MAX_SCORE_LEVELS)
    {
      assert questions[..index + 1][..index] == questions[..index];
      if questions[index].kind.Score? && |questions[index].kind.levels| > MAX_SCORE_LEVELS {
        r := r + [TooManyLevels(index)];
      }
    }
    assert questions[..|questions|] == questions;
    LevelIssuesMeaning(questions, MAX_SCORE_LEVELS);
  }

  function DecodeAnswer(q: QuestionSpec, answer: WireAnswer): Result<DecisionAnswer, CheckError> {
    match (q.kind, answer)
    case (Noul(_, _), WireNoul(noul, confidence, _)) =>
      var _ :- if confidence.Some? then Unit(confidence.value) else Ok(0.0);
      var pYes :- Unit(noul);
      Ok(NoulAnswer(pYes, None))
    case (Choice(_), WireChoice(choice, probabilities, confidence, _)) =>
      var labels := LabelsOf(q.kind);
      var index :- LabelIndex(labels, choice);
      var ps :- DistributionOf(ToMap(probabilities), labels, EPS);
      if !IsArgmax(ps, index) then Err(NotMostProbable)
      else
        var spread :- Required(confidence);
        Ok(ChoiceAnswer(choice, ps, (JevChoice, spread), None))
    case (Score(_), WireScore(score, probabilities, confidence, _)) =>
      var ps :- DistributionOf(ToMap(probabilities), LabelsOf(q.kind), EPS);
      AcceptedNotEmpty(ToMap(probabilities), LabelsOf(q.kind), EPS);
      var expected :- Expectation(score, ps, EPS);
      var spread :- Required(confidence);
      Ok(ScoreAnswer(expected, ps, (JevScore, spread), None))
    case _ => Err(TypeMismatch)
  }

  /** An alias may be served by any Jev model; a concrete name only by itself. */
  predicate ReportsModel(model: string, wire: WireResponse) {
    if model in ALIASES then "jev-" <= wire.model else wire.model == model
  }

  function Decode(params: WireParams, questions: seq<QuestionSpec>, wire: WireResponse)
    : Result<DecisionResponse, DecodeError>
  {
    if !ReportsModel(params.model, wire) then Err(WrongModel)
    else
      var answers :- Paired(questions, ToMap(wire.answers), DecodeAnswer);
      Ok(DecisionResponse(
        Execution(Provider.Jev, params.model, wire.model, None), answers, wire.usage.inputTokens, NotApplicable))
  }

  /** What Jev documents: no confidence on noul, one on choice and score, and no answer confidence;
      what it should not send is tolerated. */
  ghost predicate Honest(kind: QuestionKind, truth: Judgement, r: real -> real, answer: WireAnswer) {
    && RoundedFrom(kind, truth, r, EPS, answer)
    && (kind.Noul? ==> answer.confidence.None? || InUnit(answer.confidence.value))
    && (!kind.Noul? ==> answer.confidence.Some? && InUnit(answer.confidence.value))
  }

  function TwoDecimals(x: real): real {
    (x * 100.0 + 0.5).Floor as real / 100.0
  }

  lemma TwoDecimalsMonotone(x: real, y: real)
    requires x <= y
    ensures TwoDecimals(x) <= TwoDecimals(y)
  {
    FloorMonotone(x * 100.0 + 0.5, y * 100.0 + 0.5);
  }

  lemma TwoDecimalsClose(x: real)
    ensures Abs(TwoDecimals(x) - x) <= EPS
  {
    var z := x * 100.0 + 0.5;
    assert z.Floor as real <= z < z.Floor as real + 1.0;
  }

  lemma TwoDecimalsExact(x: real)
    requires x.Floor as real == x
    ensures TwoDecimals(x) == x
  {
    var n := x.Floor;
    assert n as real * 100.0 == (n * 100) as real;
    FloorHalf(n * 100);
  }

  /** Rounding to two decimals, halves up, is such a rounding. */
  lemma TwoDecimalsRound(top: nat)
    ensures Rounds(x => TwoDecimals(x), EPS, top)
  {
    var r := x => TwoDecimals(x);
    forall x, y | x <= y ensures r(x) <= r(y) {
      TwoDecimalsMonotone(x, y);
    }
    forall x ensures Abs(r(x) - x) <= EPS {
      TwoDecimalsClose(x);
    }
    forall x: real | x.Floor as real == x ensures r(x) == x {
      TwoDecimalsExact(x);
    }
    RoundsWhen(r, EPS, top);
  }

  lemma HonestNoul(q: QuestionSpec, truth: Judgement, r: real -> real, answer: WireAnswer)
    requires q.kind.Noul? && Honest(q.kind, truth, r, answer)
    ensures DecodeAnswer(q, answer) == Ok(NoulAnswer(r(truth.p), None))
  {
    RoundedInUnit(r, EPS, 1, truth.p);
  }

  lemma ChoiceAccepted(q: QuestionSpec, answer: WireAnswer, rs: seq<real>)
    requires q.kind.Choice? && answer.WireChoice? && LabelIndex(LabelsOf(q.kind), answer.choice).Ok?
    requires DistributionOf(ToMap(answer.probabilities), LabelsOf(q.kind), EPS) == Ok(rs)
    requires IsArgmax(rs, LabelIndex(LabelsOf(q.kind), answer.choice).value)
    requires answer.confidence.Some? && InUnit(answer.confidence.value)
    ensures DecodeAnswer(q, answer) == Ok(ChoiceAnswer(answer.choice, rs, (JevChoice, answer.confidence.value), None))
  {
    var index := LabelIndex(LabelsOf(q.kind), answer.choice);
    assert index == Ok(index.value);
  }

  lemma ScoreAccepted(q: QuestionSpec, answer: WireAnswer, rs: seq<real>)
    requires q.kind.Score? && answer.WireScore?
    requires DistributionOf(ToMap(answer.probabilities), LabelsOf(q.kind), EPS) == Ok(rs)
    requires Expectation(answer.score, rs, EPS) == Ok(answer.score)
    requires answer.confidence.Some? && InUnit(answer.confidence.value)
    ensures DecodeAnswer(q, answer) == Ok(ScoreAnswer(answer.score, rs, (JevScore, answer.confidence.value), None))
  {
  }

  lemma HonestChoice(q: QuestionSpec, truth: Judgement, r: real -> real, answer: WireAnswer)
    requires q.kind.Choice? && GoodKind(q.kind) && Honest(q.kind, truth, r, answer)
    ensures DecodeAnswer(q, answer).Ok?
    ensures Reports(DecodeAnswer(q, answer).value, truth, r)
  {
    ChoiceComplete(q.kind, truth, r, EPS, answer);
    ChoiceAccepted(q, answer, Rounded(r, truth.ps));
  }

  lemma HonestScore(q: QuestionSpec, truth: Judgement, r: real -> real, answer: WireAnswer)
    requires q.kind.Score? && GoodKind(q.kind) && Honest(q.kind, truth, r, answer)
    ensures DecodeAnswer(q, answer).Ok?
    ensures Reports(DecodeAnswer(q, answer).value, truth, r)
  {
    ScoreComplete(q.kind, truth, r, EPS, answer);
    ScoreAccepted(q, answer, Rounded(r, truth.ps));
  }

  /** Every answer that rounds a true judgement is accepted, with its rounded values. */
  lemma Complete(q: QuestionSpec, truth: Judgement, r: real -> real, answer: WireAnswer)
    requires GoodKind(q.kind) && Honest(q.kind, truth, r, answer)
    ensures DecodeAnswer(q, answer).Ok?
    ensures Reports(DecodeAnswer(q, answer).value, truth, r)
  {
    match q.kind
    case Noul(_, _) => HonestNoul(q, truth, r, answer);
    case Choice(_) => HonestChoice(q, truth, r, answer);
    case Score(_) => HonestScore(q, truth, r, answer);
  }
}
