/** The live decision call after its transport, and its offline replay from a policy snapshot. */
module Replay {
  import opened Wrappers
  import opened Text
  import opened Question
  import opened Response
  import opened Provider
  import opened Policy
  import opened Rounding
  import opened Utf8
  import Jev
  import Laya

  datatype DecisionError =
    | InvalidRequest(issue: Option<Issue>)
    | InvalidConfig(policy: PolicyError)
    | SchemaMismatch
    | InvalidResponse(decode: DecodeError)
    | ReflectsCredential

  datatype Settings = Settings(provider: Provider, model: string, layaMaxLen: nat, apiKey: string)

  /** serde_json's typed parser of a response body. */
  type WireParser = seq<Byte> -> Option<WireResponse>

  /** `validate_questions`. */
  function ProviderIssues(provider: Provider, questions: seq<QuestionSpec>): seq<Issue> {
    var normal := Normalize(questions);
    CommonIssues(normal) +
    LevelIssues(normal, if provider.Jev? then Jev.MAX_SCORE_LEVELS else Laya.MAX_LEVELS)
  }

  function Decode(provider: Provider, params: WireParams, questions: seq<QuestionSpec>, wire: WireResponse)
    : Result<DecisionResponse, DecodeError>
  {
    match provider
    case Jev => Jev.Decode(params, questions, wire)
    case Laya => Laya.Decode(params, questions, wire)
  }

  function DecodeChecked(provider: Provider, params: WireParams, questions: seq<QuestionSpec>, body: seq<Byte>, parse: WireParser)
    : Result<DecisionResponse, DecisionError>
  {
    var wire := parse(body);
    if wire.None? then Err(SchemaMismatch)
    else
      var r := Decode(provider, params, questions, wire.value);
      if r.Err? then Err(InvalidResponse(r.error)) else Ok(r.value)
  }

  predicate Reflects(execution: Execution, key: string) {
    Contains(execution.reportedModel, key) ||
    (execution.routingModel.Some? && Contains(execution.routingModel.value, key))
  }

  /** `decide` once a success response has been read in full: normalise, validate, `decode_body`. */
  function Decide(settings: Settings, questions: seq<QuestionSpec>, body: seq<Byte>, parse: WireParser)
    : Result<DecisionResponse, DecisionError>
  {
    var normal := Normalize(questions);
    if questions == [] then Err(InvalidRequest(None))
    else if ProviderIssues(settings.provider, normal) != [] then
      Err(InvalidRequest(Some(ProviderIssues(settings.provider, normal)[0])))
    else
      var params := WireParams(settings.model, settings.layaMaxLen);
      var r := DecodeChecked(settings.provider, params, normal, body, parse);
      if r.Ok? && Reflects(r.value.execution, settings.apiKey) then Err(ReflectsCredential) else r
  }

  /** `revalidate`. */
  function Revalidate(provider: Provider, model: string, layaMaxLen: Option<nat>, policy: string, body: seq<Byte>, parse: WireParser)
    : Result<DecisionResponse, DecisionError>
  {
    var questions := QuestionsFromCanonical(policy);
    if questions.Err? then Err(InvalidConfig(questions.error))
    else
      var params := WireParams(model, if layaMaxLen.None? then 0 else layaMaxLen.value);
      DecodeChecked(provider, params, questions.value.0, body, parse)
  }

  /** Replay needs nothing of the live execution but the provider, the model and the snapshot. */
  lemma ReplayIgnoresMaxLen(provider: Provider, model: string, len1: nat, len2: nat, questions: seq<QuestionSpec>, body: seq<Byte>, parse: WireParser)
    ensures DecodeChecked(provider, WireParams(model, len1), questions, body, parse)
         == DecodeChecked(provider, WireParams(model, len2), questions, body, parse)
  {
  }

  /** The live call accepts a body exactly when the questions may be asked, the offline replay of the
      snapshot gives the same response, and that response does not reflect the key. */
  lemma ReplayAgrees(settings: Settings, questions: seq<QuestionSpec>, maxStateChars: nat, layaMaxLen: Option<nat>,
                     body: seq<Byte>, parse: WireParser, r: DecisionResponse)
    requires maxStateChars < U32
    ensures Decide(settings, questions, body, parse) == Ok(r) <==>
      && questions != []
      && ProviderIssues(settings.provider, questions) == []
      && Revalidate(settings.provider, settings.model, layaMaxLen, PolicyText(questions, maxStateChars), body, parse) == Ok(r)
      && !Reflects(r.execution, settings.apiKey)
  {
    PolicyRoundTrip(questions, maxStateChars);
    NormalizeIdempotent(questions);
    ReplayIgnoresMaxLen(settings.provider, settings.model, settings.layaMaxLen,
      if layaMaxLen.None? then 0 else layaMaxLen.value, Normalize(questions), body, parse);
  }

  // ---- Honest providers are believed ----

  /** An answer as the provider documents it, rounded from `truth`. */
  ghost predicate HonestAnswer(provider: Provider, kind: QuestionKind, truth: Judgement, r: real -> real, answer: WireAnswer) {
    match provider
    case Jev => Jev.Honest(kind, truth, r, answer)
    case Laya => Laya.Honest(kind, truth, r, answer)
  }

  /** The envelope of a response is in order for the provider. */
  ghost predicate GoodEnvelope(provider: Provider, model: string, wire: WireResponse) {
    match provider
    case Jev => Jev.ReportsModel(model, wire)
    case Laya => Laya.InOrder(model, wire)
  }

  /** `wire` answers each question, and only those, with a rounded report of `truths`. */
  ghost predicate HonestWire(provider: Provider, questions: seq<QuestionSpec>, truths: seq<Judgement>, r: real -> real, wire: WireResponse) {
    && |truths| == |questions|
    && AllAsked(questions, ToMap(wire.answers))
    && forall i | 0 <= i < |questions| :: questions[i].id in ToMap(wire.answers)
         && HonestAnswer(provider, questions[i].kind, truths[i], r, ToMap(wire.answers)[questions[i].id])
  }

  lemma NoIssues(provider: Provider, questions: seq<QuestionSpec>)
    requires ProviderIssues(provider, questions) == []
    ensures GoodQuestions(Normalize(questions))
  {
    CommonIssuesMeaning(Normalize(questions));
  }

  lemma HonestJev(questions: seq<QuestionSpec>, truths: seq<Judgement>, r: real -> real, wire: WireResponse)
    requires GoodQuestions(questions) && HonestWire(Provider.Jev, questions, truths, r, wire)
    ensures Paired(questions, ToMap(wire.answers), Jev.DecodeAnswer).Ok?
  {
    var answers := ToMap(wire.answers);
    forall i | 0 <= i < |questions| ensures Jev.DecodeAnswer(questions[i], answers[questions[i].id]).Ok? {
      Jev.Complete(questions[i], truths[i], r, answers[questions[i].id]);
    }
    PairedComplete(questions, answers, Jev.DecodeAnswer);
  }

  lemma HonestLaya(questions: seq<QuestionSpec>, truths: seq<Judgement>, r: real -> real, wire: WireResponse)
    requires GoodQuestions(questions) && HonestWire(Provider.Laya, questions, truths, r, wire)
    ensures Paired(questions, ToMap(wire.answers), Laya.DecodeAnswer).Ok?
  {
    var answers := ToMap(wire.answers);
    forall i | 0 <= i < |questions| ensures Laya.DecodeAnswer(questions[i], answers[questions[i].id]).Ok? {
      Laya.Complete(questions[i], truths[i], r, answers[questions[i].id]);
    }
    PairedComplete(questions, answers, Laya.DecodeAnswer);
  }

  /** Whatever a provider truly believes, its rounded answers to questions that may be asked are accepted. */
  lemma HonestResponseAccepted(provider: Provider, params: WireParams, questions: seq<QuestionSpec>, truths: seq<Judgement>,
                               r: real -> real, wire: WireResponse)
    requires ProviderIssues(provider, questions) == []
    requires GoodEnvelope(provider, params.model, wire)
    requires HonestWire(provider, Normalize(questions), truths, r, wire)
    ensures Decode(provider, params, Normalize(questions), wire).Ok?
  {
    NoIssues(provider, questions);
    match provider
    case Jev => HonestJev(Normalize(questions), truths, r, wire);
    case Laya =>
      HonestLaya(Normalize(questions), truths, r, wire);
      Laya.DecodesWhen(params, Normalize(questions), wire);
  }
}
