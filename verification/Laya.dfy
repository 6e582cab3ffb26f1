/** Responses of laya-server. */
module Laya {
  import opened Wrappers
  import opened Question
  import opened Response
  import opened Provider
  import opened Rounding

  const EPS := 0.00005
  const MAX_LEVELS := 50

  /** `validate`: one issue for each score question with too many levels. */
  method Validate(questions: seq<QuestionSpec>, issues: seq<Issue>) returns (r: seq<Issue>)
    ensures r == issues + LevelIssues(questions, MAX_LEVELS)
    ensures ReportsLevels(r[|issues|..], questions, MAX_LEVELS)
  {
    r := issues;
    assert LevelIssues([], MAX_LEVELS) == [];
    for index := 0 to |questions|
      invariant r == issues + LevelIssues(questions[..index], MAX_LEVELS)
    {
      assert questions[..index + 1][..index] == questions[..index];
      if questions[index].kind.Score? && |questions[index].kind.levels| > MAX_LEVELS {
        r := r + [TooManyLevels(index)];
      }
    }
    assert questions[..|questions|] == questions;
    LevelIssuesMeaning(questions, MAX_LEVELS);
  }

  const MAX_SLACK := 2.0 * EPS + 0.000000001

  function NearMax(value: real, expected: real): Result<real, CheckError> {
    if Abs(value - expected) <= MAX_SLACK then Ok(value) else Err(NotNearMax)
  }

  function DecodeAnswer(q: QuestionSpec, answer: WireAnswer): Result<DecisionAnswer, CheckError> {
    match (q.kind, answer)
    case (Noul(_, _), WireNoul(noul, confidence, answerConfidence)) =>
      var pYes :- Unit(noul);
      var top := Max(pYes, 1.0 - pYes);
      var given :- Required(confidence);
      var _ :- NearMax(given, top);
      var answered :- Required(answerConfidence);
      var near :- NearMax(answered, top);
      Ok(NoulAnswer(pYes, Some(near)))
    case (Choice(_), WireChoice(choice, probabilities, confidence, answerConfidence)) =>
      var labels := LabelsOf(q.kind);
      var index :- LabelIndex(labels, choice);
      var ps :- DistributionOf(ToMap(probabilities), labels, EPS);
      if !IsArgmax(ps, index) then Err(NotMostProbable)
      else
        var answered :- Required(answerConfidence);
        var near :- NearMax(answered, MaxOf(ps));
        var spread :- Required(confidence);
        Ok(ChoiceAnswer(choice, ps, (LayaEntropy, spread), Some(near)))
    case (Score(_), WireScore(score, probabilities, confidence, answerConfidence)) =>
      var ps :- DistributionOf(ToMap(probabilities), LabelsOf(q.kind), EPS);
      AcceptedNotEmpty(ToMap(probabilities), LabelsOf(q.kind), EPS);
      var expected :- Expectation(score, ps, EPS);
      var answered :- Required(answerConfidence);
      var near :- NearMax(answered, MaxOf(ps));
      var spread :- Required(confidence);
      Ok(ScoreAnswer(expected, ps, (LayaEntropy, spread), Some(near)))
    case _ => Err(TypeMismatch)
  }

  function Decode(params: WireParams, questions: seq<QuestionSpec>, wire: WireResponse)
    : Result<DecisionResponse, DecodeError>
  {
    if wire.model == "" then Err(NoModel)
    else if wire.routing.None? then Err(NoRouting)
    else if wire.routing.value != params.model then Err(WrongModel)
    else if wire.usage.truncated.None? || wire.usage.stateTokensDropped.None? then Err(NoTruncation)
    else if wire.usage.options.Some? && exists o | o in wire.usage.options.value :: o.1.distinct < o.1.total then
      Err(OptionsCollapsed)
    else
      var answers :- Paired(questions, ToMap(wire.answers), DecodeAnswer);
      Ok(DecisionResponse(
        Execution(Provider.Laya, params.model, wire.model, wire.routing), answers, wire.usage.inputTokens,
        LayaState(wire.usage.truncated.value, wire.usage.stateTokensDropped.value)))
  }

  /** Everything around the answers is as the request demands. */
  ghost predicate InOrder(model: string, wire: WireResponse) {
    && wire.model != "" && wire.routing == Some(model)
    && wire.usage.truncated.Some? && wire.usage.stateTokensDropped.Some?
    && (wire.usage.options.Some? ==> forall o | o in wire.usage.options.value :: o.1.distinct >= o.1.total)
  }

  lemma DecodesWhen(params: WireParams, questions: seq<QuestionSpec>, wire: WireResponse)
    ensures Decode(params, questions, wire).Ok? <==>
      InOrder(params.model, wire) && Paired(questions, ToMap(wire.answers), DecodeAnswer).Ok?
  {
  }

  lemma NearMaxComplete(r: real -> real, p: real)
    requires Rounds(r, EPS, 1) && InUnit(p)
    ensures NearMax(r(Max(p, 1.0 - p)), Max(r(p), 1.0 - r(p))).Ok?
  {
    var top := Max(p, 1.0 - p);
    assert Abs(r(p) - p) <= EPS && Abs(r(top) - top) <= EPS;
  }

  /** What laya-server documents: the rounded maximum as answer confidence, and as confidence on noul;
      an entropy as confidence on choice and score. */
  ghost predicate Honest(kind: QuestionKind, truth: Judgement, r: real -> real, answer: WireAnswer) {
    && RoundedFrom(kind, truth, r, EPS, answer)
    && answer.answerConfidence == Some(r(TopOf(truth)))
    && (kind.Noul? ==> answer.confidence == Some(r(TopOf(truth))))
    && (!kind.Noul? ==> answer.confidence.Some? && InUnit(answer.confidence.value))
  }

  function FourDecimals(x: real): real {
    (x * 10000.0 + 0.5).Floor as real / 10000.0
  }

  lemma FourDecimalsMonotone(x: real, y: real)
    requires x <= y
    ensures FourDecimals(x) <= FourDecimals(y)
  {
    FloorMonotone(x * 10000.0 + 0.5, y * 10000.0 + 0.5);
  }

  lemma FourDecimalsClose(x: real)
    ensures Abs(FourDecimals(x) - x) <= EPS
  {
    var z := x * 10000.0 + 0.5;
    assert z.Floor as real <= z < z.Floor as real + 1.0;
  }

  lemma FourDecimalsExact(x: real)
    requires x.Floor as real == x
    ensures FourDecimals(x) == x
  {
    var n := x.Floor;
    assert n as real * 10000.0 == (n * 10000) as real;
    FloorHalf(n * 10000);
  }

  /** Rounding to four decimals, halves up, is such a rounding. */
  lemma FourDecimalsRound(top: nat)
    ensures Rounds(x => FourDecimals(x), EPS, top)
  {
    var r := x => FourDecimals(x);
    forall x, y | x <= y ensures r(x) <= r(y) {
      FourDecimalsMonotone(x, y);
    }
    forall x ensures Abs(r(x) - x) <= EPS {
      FourDecimalsClose(x);
    }
    forall x: real | x.Floor as real == x ensures r(x) == x {
      FourDecimalsExact(x);
    }
    RoundsWhen(r, EPS, top);
  }

  lemma HonestNoul(q: QuestionSpec, truth: Judgement, r: real -> real, answer: WireAnswer)
    requires q.kind.Noul? && Honest(q.kind, truth, r, answer)
    ensures DecodeAnswer(q, answer).Ok?
    ensures Reports(DecodeAnswer(q, answer).value, truth, r)
    ensures DecodeAnswer(q, answer).value.topProbability == Some(r(TopOf(truth)))
  {
    RoundedInUnit(r, EPS, 1, truth.p);
    RoundedInUnit(r, EPS, 1, TopOf(truth));
    NearMaxComplete(r, truth.p);
  }

  lemma ChoiceAccepted(q: QuestionSpec, answer: WireAnswer, rs: seq<real>)
    requires q.kind.Choice? && answer.WireChoice? && LabelIndex(LabelsOf(q.kind), answer.choice).Ok?
    requires DistributionOf(ToMap(answer.probabilities), LabelsOf(q.kind), EPS) == Ok(rs)
    requires IsArgmax(rs, LabelIndex(LabelsOf(q.kind), answer.choice).value)
    requires answer.answerConfidence == Some(MaxOf(rs)) && InUnit(MaxOf(rs))
    requires answer.confidence.Some? && InUnit(answer.confidence.value)
    ensures DecodeAnswer(q, answer) == Ok(ChoiceAnswer(answer.choice, rs, (LayaEntropy, answer.confidence.value), Some(MaxOf(rs))))
  {
  }

  lemma ScoreAccepted(q: QuestionSpec, answer: WireAnswer, rs: seq<real>)
    requires q.kind.Score? && answer.WireScore?
    requires DistributionOf(ToMap(answer.probabilities), LabelsOf(q.kind), EPS) == Ok(rs)
    requires Expectation(answer.score, rs, EPS) == Ok(answer.score)
    requires answer.answerConfidence == Some(MaxOf(rs)) && InUnit(MaxOf(rs))
    requires answer.confidence.Some? && InUnit(answer.confidence.value)
    ensures DecodeAnswer(q, answer) == Ok(ScoreAnswer(answer.score, rs, (LayaEntropy, answer.confidence.value), Some(MaxOf(rs))))
  {
  }

  lemma HonestChoice(q: QuestionSpec, truth: Judgement, r: real -> real, answer: WireAnswer)
    requires q.kind.Choice? && GoodKind(q.kind) && Honest(q.kind, truth, r, answer)
    ensures DecodeAnswer(q, answer).Ok?
    ensures Reports(DecodeAnswer(q, answer).value, truth, r)
    ensures DecodeAnswer(q, answer).value.topProbability == Some(r(TopOf(truth)))
  {
    ChoiceComplete(q.kind, truth, r, EPS, answer);
    ChoiceAccepted(q, answer, Rounded(r, truth.ps));
  }

  lemma HonestScore(q: QuestionSpec, truth: Judgement, r: real -> real, answer: WireAnswer)
    requires q.kind.Score? && GoodKind(q.kind) && Honest(q.kind, truth, r, answer)
    ensures DecodeAnswer(q, answer).Ok?
    ensures Reports(DecodeAnswer(q, answer).value, truth, r)
    ensures DecodeAnswer(q, answer).value.topProbability == Some(r(TopOf(truth)))
  {
    ScoreComplete(q.kind, truth, r, EPS, answer);
    ScoreAccepted(q, answer, Rounded(r, truth.ps));
  }

  /** Every answer that rounds a true judgement is accepted, with its rounded values. */
  lemma Complete(q: QuestionSpec, truth: Judgement, r: real -> real, answer: WireAnswer)
    requires GoodKind(q.kind) && Honest(q.kind, truth, r, answer)
    ensures DecodeAnswer(q, answer).Ok?
    ensures Reports(DecodeAnswer(q, answer).value, truth, r)
    ensures DecodeAnswer(q, answer).value.topProbability == Some(r(TopOf(truth)))
  {
    match q.kind
    case Noul(_, _) => HonestNoul(q, truth, r, answer);
    case Choice(_) => HonestChoice(q, truth, r, answer);
    case Score(_) => HonestScore(q, truth, r, answer);
  }
}
