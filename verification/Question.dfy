/** Typed-decision questions: normal form and the provider-independent rules. */
module Question {
  import opened Wrappers
  import opened Text

  const MAX_CHOICE_OPTIONS := 20
  const MAX_QUESTIONS := 50
  const MAX_INSTRUCTION_CHARS := 2000

  datatype QuestionSpec = QuestionSpec(id: string, instructions: string, kind: QuestionKind)

  datatype QuestionKind =
    | Noul(yes: Option<string>, no: Option<string>)
    | Choice(options: seq<ChoiceOption>)
    | Score(levels: seq<string>)

  datatype ChoiceOption = ChoiceOption(name: string, description: Option<string>)

  // ---- Normal form ----

  function TrimAll(texts: seq<string>): seq<string> {
    seq(|texts|, i requires 0 <= i < |texts| => Trim(texts[i]))
  }

  /** A blank optional text counts as absent. */
  function TrimOptional(text: Option<string>): Option<string> {
    if text.None? || Trim(text.value) == "" then None else Some(Trim(text.value))
  }

  function NormalizedOption(o: ChoiceOption): ChoiceOption {
    ChoiceOption(Trim(o.name), TrimOptional(o.description))
  }

  function NormalizedKind(kind: QuestionKind): QuestionKind {
    match kind
    case Noul(yes, no) => Noul(TrimOptional(yes), TrimOptional(no))
    case Choice(options) => Choice(seq(|options|, i requires 0 <= i < |options| => NormalizedOption(options[i])))
    case Score(levels) => Score(TrimAll(levels))
  }

  function Normalized(q: QuestionSpec): QuestionSpec {
    QuestionSpec(Trim(q.id), Trim(q.instructions), NormalizedKind(q.kind))
  }

  function Normalize(questions: seq<QuestionSpec>): seq<QuestionSpec> {
    seq(|questions|, i requires 0 <= i < |questions| => Normalized(questions[i]))
  }

  lemma TrimOptionalIdempotent(text: Option<string>)
    ensures TrimOptional(TrimOptional(text)) == TrimOptional(text)
  {
    if text.Some? {
      TrimTrims(text.value);
    }
  }

  lemma NormalizedIdempotent(q: QuestionSpec)
    ensures Normalized(Normalized(q)) == Normalized(q)
  {
    TrimTrims(q.id);
    TrimTrims(q.instructions);
    match q.kind
    case Noul(yes, no) =>
      TrimOptionalIdempotent(yes);
      TrimOptionalIdempotent(no);
    case Choice(options) =>
      forall i | 0 <= i < |options|
        ensures NormalizedOption(NormalizedOption(options[i])) == NormalizedOption(options[i])
      {
        TrimTrims(options[i].name);
        TrimOptionalIdempotent(options[i].description);
      }
    case Score(levels) =>
      forall i | 0 <= i < |levels| ensures Trim(Trim(levels[i])) == Trim(levels[i]) {
        TrimTrims(levels[i]);
      }
  }

  lemma NormalizeIdempotent(questions: seq<QuestionSpec>)
    ensures Normalize(Normalize(questions)) == Normalize(questions)
  {
    forall i | 0 <= i < |questions| ensures Normalized(Normalized(questions[i])) == Normalized(questions[i]) {
      NormalizedIdempotent(questions[i]);
    }
  }

  // ---- Rules ----

  /** A broken rule; questions are named by their index. */
  datatype Issue =
    | TooManyQuestions
    | BadId(index: nat)
    | DuplicateId(index: nat)
    | NoInstructions(index: nat)
    | LongInstructions(index: nat)
    | OptionCount(index: nat)
    | TooFewLevels(index: nat)
    | TooManyLevels(index: nat)
    | EmptyLabel(index: nat)
    | DuplicateLabel(index: nat)

  predicate ValidId(id: string) {
    id != "" && forall i | 0 <= i < |id| :: id[i] == '_' || 'a' <= id[i] <= 'z' || IsDigit(id[i])
  }

  function OptionLabels(options: seq<ChoiceOption>): (labels: seq<string>)
    ensures |labels| == |options| && forall i | 0 <= i < |options| :: labels[i] == options[i].name
  {
    seq(|options|, i requires 0 <= i < |options| => options[i].name)
  }

  function LabelIssues(labels: seq<string>, seen: set<string>, index: nat): seq<Issue> {
    if labels == [] then []
    else if labels[0] == "" then [EmptyLabel(index)] + LabelIssues(labels[1..], seen, index)
    else if labels[0] in seen then [DuplicateLabel(index)] + LabelIssues(labels[1..], seen, index)
    else LabelIssues(labels[1..], seen + {labels[0]}, index)
  }

  function KindIssues(kind: QuestionKind, index: nat): seq<Issue> {
    match kind
    case Noul(_, _) => []
    case Choice(options) =>
      (if 2 <= |options| <= MAX_CHOICE_OPTIONS then [] else [OptionCount(index)]) +
      LabelIssues(OptionLabels(options), {}, index)
    case Score(levels) =>
      (if |levels| < 2 then [TooFewLevels(index)] else []) + LabelIssues(levels, {}, index)
  }

  function QuestionIssues(q: QuestionSpec, index: nat, ids: set<string>): seq<Issue> {
    (if !ValidId(q.id) then [BadId(index)] else if q.id in ids then [DuplicateId(index)] else []) +
    (if q.instructions == "" then [NoInstructions(index)]
     else if |q.instructions| > MAX_INSTRUCTION_CHARS then [LongInstructions(index)]
     else []) +
    KindIssues(q.kind, index)
  }

  function IdsAfter(q: QuestionSpec, ids: set<string>): set<string> {
    if ValidId(q.id) then ids + {q.id} else ids
  }

  /** A provider's own limit on the levels of score questions. */
  function LevelIssues(questions: seq<QuestionSpec>, maxLevels: nat): seq<Issue> {
    if questions == [] then []
    else
      var n := |questions| - 1;
      LevelIssues(questions[..n], maxLevels) +
      (if TooMany(questions[n], maxLevels) then [TooManyLevels(n)] else [])
  }

  predicate TooMany(q: QuestionSpec, maxLevels: nat) {
    q.kind.Score? && |q.kind.levels| > maxLevels
  }

  /** Each score question with too many levels, once, in question order, and nothing else. */
  ghost predicate ReportsLevels(issues: seq<Issue>, questions: seq<QuestionSpec>, maxLevels: nat) {
    && (forall k | 0 <= k < |issues| ::
          issues[k].TooManyLevels? && issues[k].index < |questions| && TooMany(questions[issues[k].index], maxLevels))
    && (forall j, k | 0 <= j < k < |issues| :: issues[j].index < issues[k].index)
    && (forall i | 0 <= i < |questions| && TooMany(questions[i], maxLevels) :: TooManyLevels(i) in issues)
  }

  lemma {:induction false} LevelIssuesMeaning(questions: seq<QuestionSpec>, maxLevels: nat)
    ensures ReportsLevels(LevelIssues(questions, maxLevels), questions, maxLevels)
  {
    if questions != [] {
      var n := |questions| - 1;
      var (rest, issues) := (LevelIssues(questions[..n], maxLevels), LevelIssues(questions, maxLevels));
      LevelIssuesMeaning(questions[..n], maxLevels);
      forall i | 0 <= i < |questions| && TooMany(questions[i], maxLevels) ensures TooManyLevels(i) in issues {
        if i < n {
          assert TooMany(questions[..n][i], maxLevels);
          assert TooManyLevels(i) in rest;
        } else {
          assert issues[|rest|] == TooManyLevels(n);
        }
      }
    }
  }

  function IssuesFrom(questions: seq<QuestionSpec>, index: nat, ids: set<string>): seq<Issue> {
    if questions == [] then []
    else QuestionIssues(questions[0], index, ids) + IssuesFrom(questions[1..], index + 1, IdsAfter(questions[0], ids))
  }

  function CommonIssues(questions: seq<QuestionSpec>): seq<Issue> {
    (if |questions| > MAX_QUESTIONS then [TooManyQuestions] else []) + IssuesFrom(questions, 0, {})
  }

  /** `check_labels`: pushes one issue for each bad label. */
  method CheckLabels(labels: seq<string>, index: nat, issues: seq<Issue>) returns (r: seq<Issue>)
    ensures r == issues + LabelIssues(labels, {}, index)
  {
    r := issues;
    var seen: set<string> := {};
    for i := 0 to |labels|
      invariant r + LabelIssues(labels[i..], seen, index) == issues + LabelIssues(labels, {}, index)
    {
      var name := labels[i];
      assert labels[i..][0] == name && labels[i..][1..] == labels[i + 1..];
      if name == "" {
        r := r + [EmptyLabel(index)];
      } else if name in seen {
        r := r + [DuplicateLabel(index)];
      } else {
        seen := seen + {name};
      }
    }
  }

  /** The `match` on the question's kind in `check_common`. */
  method CheckKind(kind: QuestionKind, index: nat, issues: seq<Issue>) returns (r: seq<Issue>)
    ensures r == issues + KindIssues(kind, index)
  {
    r := issues;
    match kind {
      case Noul(_, _) =>
      case Choice(options) =>
        if !(2 <= |options| <= MAX_CHOICE_OPTIONS) {
          r := r + [OptionCount(index)];
        }
        r := CheckLabels(OptionLabels(options), index, r);
      case Score(levels) =>
        if |levels| < 2 {
          r := r + [TooFewLevels(index)];
        }
        r := CheckLabels(levels, index, r);
    }
  }

  /** One round of the loop in `check_common`. */
  method CheckQuestion(q: QuestionSpec, index: nat, ids: set<string>, issues: seq<Issue>)
    returns (newIds: set<string>, r: seq<Issue>)
    ensures newIds == IdsAfter(q, ids)
    ensures r == issues + QuestionIssues(q, index, ids)
  {
    newIds, r := ids, issues;
    if !ValidId(q.id) {
      r := r + [BadId(index)];
    } else if q.id in ids {
      r := r + [DuplicateId(index)];
    } else {
      newIds := ids + {q.id};
    }
    if q.instructions == "" {
      r := r + [NoInstructions(index)];
    } else if |q.instructions| > MAX_INSTRUCTION_CHARS {
      r := r + [LongInstructions(index)];
    }
    r := CheckKind(q.kind, index, r);
  }

  lemma IssuesStep(questions: seq<QuestionSpec>, index: nat, ids: set<string>, issues: seq<Issue>)
    requires index < |questions|
    ensures var q := questions[index];
      issues + IssuesFrom(questions[index..], index, ids) ==
        issues + QuestionIssues(q, index, ids) + IssuesFrom(questions[index + 1..], index + 1, IdsAfter(q, ids))
  {
    var q := questions[index];
    assert questions[index..][0] == q && questions[index..][1..] == questions[index + 1..];
    Associate(issues, QuestionIssues(q, index, ids), IssuesFrom(questions[index + 1..], index + 1, IdsAfter(q, ids)));
  }

  /** `check_common`. */
  method CheckCommon(questions: seq<QuestionSpec>) returns (issues: seq<Issue>)
    ensures issues == CommonIssues(questions)
  {
    issues := [];
    if |questions| > MAX_QUESTIONS {
      issues := issues + [TooManyQuestions];
    }
    var ids: set<string> := {};
    assert questions[0..] == questions;
    for index := 0 to |questions|
      invariant issues + IssuesFrom(questions[index..], index, ids) == CommonIssues(questions)
    {
      IssuesStep(questions, index, ids, issues);
      ids, issues := CheckQuestion(questions[index], index, ids, issues);
    }
  }

  // ---- What the rules mean ----

  predicate GoodLabels(labels: seq<string>) {
    "" !in labels && Distinct(labels)
  }

  ghost predicate GoodKind(kind: QuestionKind) {
    match kind
    case Noul(_, _) => true
    case Choice(options) => 2 <= |options| <= MAX_CHOICE_OPTIONS && GoodLabels(OptionLabels(options))
    case Score(levels) => 2 <= |levels| && GoodLabels(levels)
  }

  ghost predicate GoodQuestion(q: QuestionSpec) {
    ValidId(q.id) && 0 < |q.instructions| <= MAX_INSTRUCTION_CHARS && GoodKind(q.kind)
  }

  ghost predicate GoodQuestions(questions: seq<QuestionSpec>) {
    && |questions| <= MAX_QUESTIONS
    && (forall i | 0 <= i < |questions| :: GoodQuestion(questions[i]))
    && (forall i, j | 0 <= i < j < |questions| :: questions[i].id != questions[j].id)
  }

  lemma {:induction false} LabelIssuesMeaning(labels: seq<string>, seen: set<string>, index: nat)
    ensures LabelIssues(labels, seen, index) == [] <==>
      GoodLabels(labels) && forall i | 0 <= i < |labels| :: labels[i] !in seen
  {
    if labels != [] {
      var rest := labels[1..];
      assert labels == [labels[0]] + rest;
      if labels[0] != "" && labels[0] !in seen {
        LabelIssuesMeaning(rest, seen + {labels[0]}, index);
        if GoodLabels(rest) && forall i | 0 <= i < |rest| :: rest[i] !in seen + {labels[0]} {
          forall i | 0 <= i < |labels| ensures labels[i] !in seen && (i > 0 ==> labels[i] != labels[0]) {
            assert i > 0 ==> labels[i] == rest[i - 1];
          }
          assert forall i, j | 0 < i < j < |labels| :: labels[i] == rest[i - 1] && labels[j] == rest[j - 1];
        }
      }
    }
  }

  lemma KindIssuesMeaning(kind: QuestionKind, index: nat)
    ensures KindIssues(kind, index) == [] <==> GoodKind(kind)
  {
    match kind
    case Noul(_, _) =>
    case Choice(options) => LabelIssuesMeaning(OptionLabels(options), {}, index);
    case Score(levels) => LabelIssuesMeaning(levels, {}, index);
  }

  lemma QuestionIssuesMeaning(q: QuestionSpec, index: nat, ids: set<string>)
    ensures QuestionIssues(q, index, ids) == [] <==> GoodQuestion(q) && q.id !in ids
  {
    KindIssuesMeaning(q.kind, index);
  }

  /** The ids are new and pairwise different. */
  predicate FreshIds(questions: seq<QuestionSpec>, ids: set<string>) {
    && (forall i | 0 <= i < |questions| :: questions[i].id !in ids)
    && (forall i, j | 0 <= i < j < |questions| :: questions[i].id != questions[j].id)
  }

  lemma FreshIdsFirst(q: QuestionSpec, rest: seq<QuestionSpec>, ids: set<string>)
    requires FreshIds([q] + rest, ids)
    ensures q.id !in ids && FreshIds(rest, ids + {q.id})
  {
    var all := [q] + rest;
    assert all[0] == q;
    forall i | 0 <= i < |rest| ensures rest[i].id !in ids + {q.id} {
      assert all[i + 1] == rest[i] && all[0].id != all[i + 1].id;
    }
    forall i, j | 0 <= i < j < |rest| ensures rest[i].id != rest[j].id {
      assert all[i + 1].id != all[j + 1].id;
    }
  }

  lemma FreshIdsThen(q: QuestionSpec, rest: seq<QuestionSpec>, ids: set<string>)
    requires q.id !in ids && FreshIds(rest, ids + {q.id})
    ensures FreshIds([q] + rest, ids)
  {
    var all := [q] + rest;
    forall i | 0 <= i < |all| ensures all[i].id !in ids && (i > 0 ==> all[i].id != q.id) {
      assert i > 0 ==> all[i] == rest[i - 1];
    }
    forall i, j | 0 <= i < j < |all| ensures all[i].id != all[j].id {
      assert i > 0 ==> rest[i - 1].id != rest[j - 1].id;
    }
  }

  ghost predicate AllGood(questions: seq<QuestionSpec>) {
    forall i | 0 <= i < |questions| :: GoodQuestion(questions[i])
  }

  lemma {:induction false} IssuesFromMeaning(questions: seq<QuestionSpec>, index: nat, ids: set<string>)
    ensures IssuesFrom(questions, index, ids) == [] <==> AllGood(questions) && FreshIds(questions, ids)
  {
    if questions != [] {
      var q, rest := questions[0], questions[1..];
      QuestionIssuesMeaning(q, index, ids);
      IssuesFromMeaning(rest, index + 1, IdsAfter(q, ids));
      assert questions == [q] + rest;
      if FreshIds(questions, ids) {
        FreshIdsFirst(q, rest, ids);
      }
      if q.id !in ids && FreshIds(rest, ids + {q.id}) {
        FreshIdsThen(q, rest, ids);
      }
      assert AllGood(questions) <==> GoodQuestion(q) && AllGood(rest) by {
        assert forall i | 0 < i < |questions| :: questions[i] == rest[i - 1];
      }
    }
  }

  /** No issue is reported exactly for the question lists that follow every rule. */
  lemma CommonIssuesMeaning(questions: seq<QuestionSpec>)
    ensures CommonIssues(questions) == [] <==> GoodQuestions(questions)
  {
    IssuesFromMeaning(questions, 0, {});
  }
}
