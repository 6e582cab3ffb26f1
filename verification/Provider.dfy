/** What the provider adapters share: answer types, labels, and pairing answers with questions. */
module Provider {
  import opened Wrappers
  import opened Text
  import opened Question
  import opened Response

  datatype Provider = Jev | Laya

  datatype WireAnswer =
    | WireNoul(noul: real, confidence: Option<real>, answerConfidence: Option<real>)
    | WireChoice(choice: string, probabilities: Entries<real>, confidence: Option<real>, answerConfidence: Option<real>)
    | WireScore(score: real, probabilities: Entries<real>, confidence: Option<real>, answerConfidence: Option<real>)

  datatype WireCollapse = WireCollapse(total: nat, distinct: nat)

  datatype WireUsage = WireUsage(
    inputTokens: nat, truncated: Option<bool>, stateTokensDropped: Option<nat>, options: Option<seq<(string, WireCollapse)>>)

  /** `routing` is the checkpoint named by `routing.model`, when both are there. */
  datatype WireResponse = WireResponse(model: string, answers: Entries<WireAnswer>, usage: WireUsage, routing: Option<string>)

  datatype SpreadKind = JevChoice | JevScore | LayaEntropy

  datatype DecisionAnswer =
    | NoulAnswer(pYes: real, topProbability: Option<real>)
    | ChoiceAnswer(choice: string, probabilities: seq<real>, spread: (SpreadKind, real), topProbability: Option<real>)
    | ScoreAnswer(expected: real, probabilities: seq<real>, spread: (SpreadKind, real), topProbability: Option<real>)

  datatype QuestionAnswer = QuestionAnswer(id: string, answer: DecisionAnswer)

  datatype StateTruncation = NotApplicable | LayaState(truncated: bool, stateTokensDropped: nat)

  datatype Execution = Execution(
    provider: Provider, requestedModel: string, reportedModel: string, routingModel: Option<string>)

  datatype DecisionResponse = DecisionResponse(
    execution: Execution, answers: seq<QuestionAnswer>, inputTokens: nat, state: StateTruncation)

  datatype DecodeError =
    | NoModel
    | WrongModel
    | NoRouting
    | NoTruncation
    | OptionsCollapsed
    | NoAnswer(id: string)
    | BadAnswer(id: string, check: CheckError)
    | UnknownAnswers

  datatype WireParams = WireParams(model: string, layaMaxLen: nat)

  // ---- Labels ----

  /** The keys of a question's probabilities: option labels, or level numbers. */
  function LabelsOf(kind: QuestionKind): seq<string> {
    match kind
    case Noul(_, _) => []
    case Choice(options) => OptionLabels(options)
    case Score(levels) => seq(|levels|, level requires 0 <= level < |levels| => Decimal(level))
  }

  function LabelIndex(labels: seq<string>, choice: string): (r: Result<nat, CheckError>)
    ensures r.Ok? ==> r.value < |labels| && labels[r.value] == choice
    ensures r.Ok? <==> choice in labels
  {
    if labels == [] then Err(UnknownChoice)
    else if labels[0] == choice then Ok(0)
    else
      var rest := LabelIndex(labels[1..], choice);
      if rest.Err? then rest else Ok(rest.value + 1)
  }

  lemma LabelsDistinct(kind: QuestionKind)
    requires GoodKind(kind)
    ensures Distinct(LabelsOf(kind))
  {
    if kind.Score? {
      forall i, j | 0 <= i < j < |kind.levels| ensures Decimal(i) != Decimal(j) {
        if Decimal(i) == Decimal(j) {
          DecimalInjective(i, j);
        }
      }
    }
  }

  // ---- Pairing ----

  type Decoder = (QuestionSpec, WireAnswer) -> Result<DecisionAnswer, CheckError>

  /** What `pair_answers` returns, from the answers as a map. */
  function Paired(questions: seq<QuestionSpec>, answers: map<string, WireAnswer>, decode: Decoder)
    : (r: Result<seq<QuestionAnswer>, DecodeError>)
  {
    if questions == [] then
      if answers == map[] then Ok([]) else Err(UnknownAnswers)
    else
      var q := questions[0];
      if q.id !in answers then Err(NoAnswer(q.id))
      else
        var answer := decode(q, answers[q.id]);
        if answer.Err? then Err(BadAnswer(q.id, answer.error))
        else
          var rest := Paired(questions[1..], answers - {q.id}, decode);
          if rest.Err? then rest else Ok([QuestionAnswer(q.id, answer.value)] + rest.value)
  }

  ghost function After(paired: seq<QuestionAnswer>, r: Result<seq<QuestionAnswer>, DecodeError>)
    : Result<seq<QuestionAnswer>, DecodeError>
  {
    if r.Err? then r else Ok(paired + r.value)
  }

  lemma PairedStep(paired: seq<QuestionAnswer>, questions: seq<QuestionSpec>, i: nat, answers: map<string, WireAnswer>, decode: Decoder)
    requires i < |questions|
    ensures var q := questions[i];
      After(paired, Paired(questions[i..], answers, decode)) ==
        if q.id !in answers then Err(NoAnswer(q.id))
        else
          var answer := decode(q, answers[q.id]);
          if answer.Err? then Err(BadAnswer(q.id, answer.error))
          else After(paired + [QuestionAnswer(q.id, answer.value)], Paired(questions[i + 1..], answers - {q.id}, decode))
  {
    assert questions[i..][0] == questions[i] && questions[i..][1..] == questions[i + 1..];
    var q := questions[i];
    if q.id in answers && decode(q, answers[q.id]).Ok? {
      var rest := Paired(questions[i + 1..], answers - {q.id}, decode);
      if rest.Ok? {
        Associate(paired, [QuestionAnswer(q.id, decode(q, answers[q.id]).value)], rest.value);
      }
    }
  }

  /** `pair_answers`: takes the answer of each question out of the object in turn. */
  method PairAnswers(questions: seq<QuestionSpec>, answers: UniqueMap<WireAnswer>, decode: Decoder)
    returns (r: Result<seq<QuestionAnswer>, DecodeError>)
    modifies answers
    ensures r == Paired(questions, old(ToMap(answers.entries)), decode)
  {
    ghost var all := Paired(questions, ToMap(answers.entries), decode);
    var paired: seq<QuestionAnswer> := [];
    assert questions[0..] == questions && (all.Ok? ==> [] + all.value == all.value);
    for i := 0 to |questions|
      invariant all == After(paired, Paired(questions[i..], ToMap(answers.entries), decode))
    {
      var q := questions[i];
      PairedStep(paired, questions, i, ToMap(answers.entries), decode);
      var answer := answers.Take(q.id);
      if answer.None? {
        return Err(NoAnswer(q.id));
      }
      var decoded := decode(q, answer.value);
      if decoded.Err? {
        return Err(BadAnswer(q.id, decoded.error));
      }
      paired := paired + [QuestionAnswer(q.id, decoded.value)];
    }
    MapSize(answers.entries);
    if answers.entries != [] {
      return Err(UnknownAnswers);
    }
    assert paired + [] == paired;
    r := Ok(paired);
  }

  ghost predicate DistinctIds(questions: seq<QuestionSpec>) {
    forall i, j | 0 <= i < j < |questions| :: questions[i].id != questions[j].id
  }

  /** Every question is asked once and answered, in question order, and every answer was asked for. */
  ghost predicate IsPairing(questions: seq<QuestionSpec>, answers: map<string, WireAnswer>, decode: Decoder, r: seq<QuestionAnswer>) {
    && |r| == |questions|
    && DistinctIds(questions)
    && AllAsked(questions, answers)
    && forall i | 0 <= i < |questions| :: AnswersTo(questions[i], answers, decode, r[i])
  }

  ghost predicate AnswersTo(q: QuestionSpec, answers: map<string, WireAnswer>, decode: Decoder, a: QuestionAnswer) {
    q.id in answers && a.id == q.id && decode(q, answers[q.id]) == Ok(a.answer)
  }

  lemma PairingSplits(questions: seq<QuestionSpec>, answers: map<string, WireAnswer>, decode: Decoder, r: seq<QuestionAnswer>)
    requires questions != [] && IsPairing(questions, answers, decode, r)
    ensures AnswersTo(questions[0], answers, decode, r[0])
    ensures IsPairing(questions[1..], answers - {questions[0].id}, decode, r[1..])
  {
    PairedKeys(questions, answers);
    forall i | 0 <= i < |questions| - 1 ensures AnswersTo(questions[1..][i], answers - {questions[0].id}, decode, r[1..][i]) {
      assert AnswersTo(questions[i + 1], answers, decode, r[i + 1]);
    }
  }

  lemma PairingJoins(questions: seq<QuestionSpec>, answers: map<string, WireAnswer>, decode: Decoder, r: seq<QuestionAnswer>)
    requires questions != [] && r != [] && AnswersTo(questions[0], answers, decode, r[0])
    requires IsPairing(questions[1..], answers - {questions[0].id}, decode, r[1..])
    ensures IsPairing(questions, answers, decode, r)
  {
    PairedKeys(questions, answers);
    forall i | 0 < i < |questions| ensures AnswersTo(questions[i], answers, decode, r[i]) && questions[i].id != questions[0].id {
      assert AnswersTo(questions[1..][i - 1], answers - {questions[0].id}, decode, r[1..][i - 1]);
    }
    forall i, j | 0 < i < j < |questions| ensures questions[i].id != questions[j].id {
      assert questions[1..][i - 1].id != questions[1..][j - 1].id;
    }
  }

  lemma {:induction false} PairedIsPairing(questions: seq<QuestionSpec>, answers: map<string, WireAnswer>, decode: Decoder)
    ensures var r := Paired(questions, answers, decode); r.Ok? ==> IsPairing(questions, answers, decode, r.value)
  {
    var r := Paired(questions, answers, decode);
    if questions != [] && r.Ok? {
      PairedIsPairing(questions[1..], answers - {questions[0].id}, decode);
      PairingJoins(questions, answers, decode, r.value);
    }
  }

  lemma {:induction false} PairingIsPaired(questions: seq<QuestionSpec>, answers: map<string, WireAnswer>, decode: Decoder, r: seq<QuestionAnswer>)
    requires IsPairing(questions, answers, decode, r)
    ensures Paired(questions, answers, decode) == Ok(r)
  {
    if questions == [] {
      assert forall id :: id !in answers;
      assert answers == map[];
    } else {
      PairingSplits(questions, answers, decode, r);
      PairingIsPaired(questions[1..], answers - {questions[0].id}, decode, r[1..]);
      PairedCons(questions, answers, decode, r[0], r[1..]);
      assert r == [r[0]] + r[1..];
    }
  }

  lemma PairedCons(questions: seq<QuestionSpec>, answers: map<string, WireAnswer>, decode: Decoder, first: QuestionAnswer, rest: seq<QuestionAnswer>)
    requires questions != [] && AnswersTo(questions[0], answers, decode, first)
    requires Paired(questions[1..], answers - {questions[0].id}, decode) == Ok(rest)
    ensures Paired(questions, answers, decode) == Ok([first] + rest)
  {
  }

  /** Pairing succeeds exactly when every question has its own answer, each answer decodes,
      and no answer is left over. */
  lemma PairedMeaning(questions: seq<QuestionSpec>, answers: map<string, WireAnswer>, decode: Decoder, r: seq<QuestionAnswer>)
    ensures Paired(questions, answers, decode) == Ok(r) <==> IsPairing(questions, answers, decode, r)
  {
    PairedIsPairing(questions, answers, decode);
    if IsPairing(questions, answers, decode, r) {
      PairingIsPaired(questions, answers, decode, r);
    }
  }

  ghost predicate AllAsked(questions: seq<QuestionSpec>, answers: map<string, WireAnswer>) {
    forall id | id in answers :: exists i | 0 <= i < |questions| :: questions[i].id == id
  }

  lemma PairedKeys(questions: seq<QuestionSpec>, answers: map<string, WireAnswer>)
    requires questions != []
    ensures AllAsked(questions, answers) <==> AllAsked(questions[1..], answers - {questions[0].id})
  {
    var left := answers - {questions[0].id};
    if AllAsked(questions, answers) {
      forall id | id in left ensures exists i | 0 <= i < |questions[1..]| :: questions[1..][i].id == id {
        var i :| 0 <= i < |questions| && questions[i].id == id;
        assert questions[1..][i - 1].id == id;
      }
    }
    if AllAsked(questions[1..], left) {
      forall id | id in answers ensures exists i | 0 <= i < |questions| :: questions[i].id == id {
        if id in left {
          var i :| 0 <= i < |questions[1..]| && questions[1..][i].id == id;
          assert questions[i + 1].id == id;
        } else {
          assert questions[0].id == id;
        }
      }
    }
  }

  lemma PairedComplete(questions: seq<QuestionSpec>, answers: map<string, WireAnswer>, decode: Decoder)
    requires DistinctIds(questions) && AllAsked(questions, answers)
    requires forall i | 0 <= i < |questions| :: questions[i].id in answers && decode(questions[i], answers[questions[i].id]).Ok?
    ensures Paired(questions, answers, decode).Ok?
  {
    var r := seq(|questions|, i requires 0 <= i < |questions| =>
      QuestionAnswer(questions[i].id, decode(questions[i], answers[questions[i].id]).value));
    assert IsPairing(questions, answers, decode, r);
    PairedMeaning(questions, answers, decode, r);
  }
}
