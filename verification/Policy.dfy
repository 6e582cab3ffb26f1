/** The canonical policy document: what a category asks, as stable text. */
module Policy {
  import opened Wrappers
  import opened Text
  import opened Question
  import Json

  type Field = Option<Json.Value>

  const POLICY_SCHEMA := 1

  // ---- serde_json's Map ----

  /** `str`'s order: UTF-8 keeps the order of scalar values. */
  predicate Less(a: string, b: string) {
    b != "" && (a == "" || a[0] < b[0] || (a[0] == b[0] && Less(a[1..], b[1..])))
  }

  /** `Map::insert` when the map is a BTreeMap. */
  function SortedInsert(members: seq<Json.Member>, key: string, value: Json.Value): seq<Json.Member> {
    if members == [] || Less(key, members[0].key) then [Json.Member(key, value)] + members
    else if members[0].key == key then [Json.Member(key, value)] + members[1..]
    else [members[0]] + SortedInsert(members[1..], key, value)
  }

  /** `Map::insert` when the map keeps insertion order. */
  function OrderedInsert(members: seq<Json.Member>, key: string, value: Json.Value): seq<Json.Member> {
    if members == [] then [Json.Member(key, value)]
    else if members[0].key == key then [Json.Member(key, value)] + members[1..]
    else [members[0]] + OrderedInsert(members[1..], key, value)
  }

  lemma LessAsymmetric(a: string, b: string)
    requires Less(a, b)
    ensures !Less(b, a) && a != b
  {
  }

  /** A key above all others goes last in either map. */
  lemma {:induction false} InsertAbove(members: seq<Json.Member>, key: string, value: Json.Value)
    requires forall i | 0 <= i < |members| :: Less(members[i].key, key)
    ensures SortedInsert(members, key, value) == members + [Json.Member(key, value)]
    ensures OrderedInsert(members, key, value) == members + [Json.Member(key, value)]
  {
    if members != [] {
      LessAsymmetric(members[0].key, key);
      InsertAbove(members[1..], key, value);
    }
  }

  ghost predicate Ascending(members: seq<Json.Member>) {
    forall i, j | 0 <= i < j < |members| :: Less(members[i].key, members[j].key)
  }

  /** The map that the given insertions build, one after the other, from an empty one. */
  function Built(insertions: seq<Json.Member>, sorted: bool): seq<Json.Member> {
    if insertions == [] then []
    else
      var last := insertions[|insertions| - 1];
      var before := Built(insertions[..|insertions| - 1], sorted);
      if sorted then SortedInsert(before, last.key, last.value) else OrderedInsert(before, last.key, last.value)
  }

  /** With ascending insertions the map's own order does not matter. */
  lemma {:induction false} MapKindIrrelevant(insertions: seq<Json.Member>, sorted: bool)
    requires Ascending(insertions)
    ensures Built(insertions, sorted) == insertions
  {
    if insertions != [] {
      var n := |insertions| - 1;
      MapKindIrrelevant(insertions[..n], sorted);
      InsertAbove(insertions[..n], insertions[n].key, insertions[n].value);
      assert insertions == insertions[..n] + [insertions[n]];
    }
  }

  // ---- Printing ----

  function Texts(texts: seq<string>): seq<Json.Value> {
    seq(|texts|, i requires 0 <= i < |texts| => Json.String(texts[i]))
  }

  function OptionalText(text: Option<string>): Json.Value {
    match text
    case None => Json.Null
    case Some(t) => Json.String(t)
  }

  function OptionValue(o: ChoiceOption): Json.Value {
    Json.Object([Json.Member("description", OptionalText(o.description)), Json.Member("label", Json.String(o.name))])
  }

  function OptionValues(options: seq<ChoiceOption>): seq<Json.Value> {
    seq(|options|, i requires 0 <= i < |options| => OptionValue(options[i]))
  }

  function Present(key: string, text: Option<string>): seq<Json.Member> {
    if text.None? then [] else [Json.Member(key, Json.String(text.value))]
  }

  function KindMembers(kind: QuestionKind): seq<Json.Member> {
    match kind
    case Noul(yes, no) => Present("no", no) + [Json.Member("type", Json.String("noul"))] + Present("yes", yes)
    case Choice(options) =>
      [Json.Member("options", Json.Array(OptionValues(options))),
       Json.Member("type", Json.String("choice"))]
    case Score(levels) =>
      [Json.Member("levels", Json.Array(Texts(levels))), Json.Member("type", Json.String("score"))]
  }

  function QuestionValue(q: QuestionSpec): Json.Value {
    Json.Object(
      [Json.Member("id", Json.String(q.id)), Json.Member("instructions", Json.String(q.instructions))] +
      KindMembers(q.kind))
  }

  function QuestionValues(questions: seq<QuestionSpec>): seq<Json.Value> {
    seq(|questions|, i requires 0 <= i < |questions| => QuestionValue(questions[i]))
  }

  function Document(maxStateChars: nat, questions: seq<Json.Value>): Json.Value {
    Json.Object([
      Json.Member("max_state_chars", Json.FromNat(maxStateChars)),
      Json.Member("policy_schema", Json.FromNat(POLICY_SCHEMA)),
      Json.Member("questions", Json.Array(questions)),
      Json.Member("state_shape", Json.Array(Texts(["title", "body"])))])
  }

  function PolicyValue(questions: seq<QuestionSpec>, maxStateChars: nat): Json.Value {
    Document(maxStateChars, QuestionValues(Normalize(questions)))
  }

  function PolicyText(questions: seq<QuestionSpec>, maxStateChars: nat): string {
    Json.Print(PolicyValue(questions, maxStateChars))
  }

  /** `canonical_question`: fields go into the map one by one. */
  method CanonicalQuestion(q: QuestionSpec) returns (v: Json.Value)
    ensures v == QuestionValue(q)
  {
    var members := [Json.Member("id", Json.String(q.id))];
    members := members + [Json.Member("instructions", Json.String(q.instructions))];
    match q.kind {
      case Noul(yes, no) =>
        if no.Some? {
          members := members + [Json.Member("no", Json.String(no.value))];
        }
        members := members + [Json.Member("type", Json.String("noul"))];
        if yes.Some? {
          members := members + [Json.Member("yes", Json.String(yes.value))];
        }
      case Choice(options) =>
        var values := [];
        for i := 0 to |options|
          invariant |values| == i && forall j | 0 <= j < i :: values[j] == OptionValue(options[j])
        {
          var entry := [Json.Member("description", OptionalText(options[i].description))];
          entry := entry + [Json.Member("label", Json.String(options[i].name))];
          values := values + [Json.Object(entry)];
        }
        assert values == OptionValues(options);
        members := members + [Json.Member("options", Json.Array(values))];
        members := members + [Json.Member("type", Json.String("choice"))];
      case Score(levels) =>
        members := members + [Json.Member("levels", Json.Array(Texts(levels)))];
        members := members + [Json.Member("type", Json.String("score"))];
    }
    assert members == QuestionValue(q).members;
    v := Json.Object(members);
  }

  /** `canonical_policy`. */
  method CanonicalPolicy(questions: seq<QuestionSpec>, maxStateChars: nat) returns (text: string)
    ensures text == PolicyText(questions, maxStateChars)
  {
    var values := CanonicalQuestions(Normalize(questions));
    var root := RootObject(maxStateChars, values);
    text := Json.Print(root);
  }

  method CanonicalQuestions(questions: seq<QuestionSpec>) returns (values: seq<Json.Value>)
    ensures values == QuestionValues(questions)
  {
    values := [];
    for i := 0 to |questions|
      invariant |values| == i && forall j | 0 <= j < i :: values[j] == QuestionValue(questions[j])
    {
      var v := CanonicalQuestion(questions[i]);
      values := values + [v];
    }
  }

  method RootObject(maxStateChars: nat, questions: seq<Json.Value>) returns (v: Json.Value)
    ensures v == Document(maxStateChars, questions)
  {
    var root := [Json.Member("max_state_chars", Json.FromNat(maxStateChars))];
    root := root + [Json.Member("policy_schema", Json.FromNat(POLICY_SCHEMA))];
    root := root + [Json.Member("questions", Json.Array(questions))];
    root := root + [Json.Member("state_shape", Json.Array(Texts(["title", "body"])))];
    v := Json.Object(root);
  }

  lemma QuestionKeysAscend(q: QuestionSpec)
    ensures Ascending(QuestionValue(q).members)
  {
    match q.kind
    case Noul(_, _) => NoulKeysAscend(q);
    case _ =>
      assert "id"[1..] == "d" && "instructions"[1..] == "nstructions";
  }

  lemma NoulKeysAscend(q: QuestionSpec)
    requires q.kind.Noul?
    ensures Ascending(QuestionValue(q).members)
  {
    assert "id"[1..] == "d" && "instructions"[1..] == "nstructions";
  }

  lemma OptionKeysAscend(o: ChoiceOption)
    ensures Ascending(OptionValue(o).members)
  {
  }

  lemma DocumentKeysAscend(maxStateChars: nat, questions: seq<Json.Value>)
    ensures Ascending(Document(maxStateChars, questions).members)
  {
  }

  /** The printed text is the same whether the map sorts its keys or keeps insertion order. */
  lemma TextIgnoresMapKind(q: QuestionSpec, o: ChoiceOption, maxStateChars: nat, questions: seq<Json.Value>, sorted: bool)
    ensures Built(OptionValue(o).members, sorted) == OptionValue(o).members
    ensures Built(QuestionValue(q).members, sorted) == QuestionValue(q).members
    ensures Built(Document(maxStateChars, questions).members, sorted) == Document(maxStateChars, questions).members
  {
    OptionKeysAscend(o);
    QuestionKeysAscend(q);
    DocumentKeysAscend(maxStateChars, questions);
    MapKindIrrelevant(OptionValue(o).members, sorted);
    MapKindIrrelevant(QuestionValue(q).members, sorted);
    MapKindIrrelevant(Document(maxStateChars, questions).members, sorted);
  }

  // ---- Parsing ----

  datatype PolicyError =
    | NotAPolicyDocument
    | UnsupportedSchema
    | ChoiceWithoutOptions
    | ScoreWithoutLevels
    | UnknownType
    | NotCanonical

  function Lookup(members: seq<Json.Member>, key: string): (r: Field)
    ensures (forall i | 0 <= i < |members| :: members[i].key != key) ==> r == None
    ensures forall i | 0 <= i < |members| && members[i].key == key && (forall j | 0 <= j < i :: members[j].key != key) ::
      r == Some(members[i].value)
  {
    if members == [] then None
    else if members[0].key == key then Some(members[0].value)
    else Lookup(members[1..], key)
  }

  function Keys(members: seq<Json.Member>): seq<string> {
    seq(|members|, i requires 0 <= i < |members| => members[i].key)
  }

  /** The fields of a serde struct that denies unknown fields, from an object or an array. */
  function Fields(v: Json.Value, names: seq<string>): (r: Option<seq<Field>>)
    ensures r.Some? ==> |r.value| == |names|
  {
    match v
    case Object(members) =>
      if Distinct(Keys(members)) && forall i | 0 <= i < |members| :: members[i].key in names
      then Some(seq(|names|, i requires 0 <= i < |names| => Lookup(members, names[i])))
      else None
    case Array(items) =>
      if |items| == |names| then Some(seq(|items|, i requires 0 <= i < |items| => Some(items[i]))) else None
    case _ => None
  }

  function AsText(v: Json.Value): Option<string> {
    if v.String? then Some(v.text) else None
  }

  function AsTexts(v: Json.Value): Option<seq<string>> {
    if v.Array? then Collect(v.items, AsText) else None
  }

  function Required<T>(f: Field, decode: Json.Value -> Option<T>): Option<T> {
    if f.None? then None else decode(f.value)
  }

  /** An `Option` field: absent and null both mean `None`. */
  function Optional<T>(f: Field, decode: Json.Value -> Option<T>): Option<Option<T>> {
    if f.None? || f.value.Null? then Some(None)
    else
      var r := decode(f.value);
      if r.None? then None else Some(r)
  }

  function AsOption(v: Json.Value): Option<ChoiceOption> {
    var f := Fields(v, ["description", "label"]);
    if f.None? then None
    else
      var description := Optional(f.value[0], AsText);
      var name := Required(f.value[1], AsText);
      if description.None? || name.None? then None else Some(ChoiceOption(name.value, description.value))
  }

  function AsOptions(v: Json.Value): Option<seq<ChoiceOption>> {
    if v.Array? then Collect(v.items, AsOption) else None
  }

  datatype RawQuestion = RawQuestion(
    id: string, instructions: string, kind: string, yes: Option<string>, no: Option<string>,
    options: Option<seq<ChoiceOption>>, levels: Option<seq<string>>)

  const QUESTION_FIELDS := ["id", "instructions", "type", "yes", "no", "options", "levels"]

  function FromFields(f: seq<Field>): Option<RawQuestion>
    requires |f| == 7
  {
    var id := Required(f[0], AsText);
    var instructions := Required(f[1], AsText);
    var kind := Required(f[2], AsText);
    var yes := Optional(f[3], AsText);
    var no := Optional(f[4], AsText);
    var options := Optional(f[5], AsOptions);
    var levels := Optional(f[6], AsTexts);
    if id.None? || instructions.None? || kind.None? || yes.None? || no.None? || options.None? || levels.None? then None
    else Some(RawQuestion(id.value, instructions.value, kind.value, yes.value, no.value, options.value, levels.value))
  }

  function AsQuestion(v: Json.Value): Option<RawQuestion> {
    var f := Fields(v, QUESTION_FIELDS);
    if f.None? then None else FromFields(f.value)
  }

  function AsQuestions(v: Json.Value): Option<seq<RawQuestion>> {
    if v.Array? then Collect(v.items, AsQuestion) else None
  }

  datatype RawPolicy = RawPolicy(maxStateChars: nat, schema: nat, questions: seq<RawQuestion>, shape: seq<string>)

  function AsPolicy(v: Json.Value): (r: Option<RawPolicy>)
    ensures r.Some? ==> r.value.maxStateChars < U32
  {
    var f := Fields(v, ["max_state_chars", "policy_schema", "questions", "state_shape"]);
    if f.None? then None
    else
      var maxStateChars := if f.value[0].None? then None else Json.AsNat(f.value[0].value, U32);
      var schema := if f.value[1].None? then None else Json.AsNat(f.value[1].value, U64);
      var questions := Required(f.value[2], AsQuestions);
      var shape := Required(f.value[3], AsTexts);
      if maxStateChars.None? || schema.None? || questions.None? || shape.None? then None
      else Some(RawPolicy(maxStateChars.value, schema.value, questions.value, shape.value))
  }

  function Specify(raw: RawQuestion): Result<QuestionSpec, PolicyError> {
    if raw.kind == "noul" then Ok(QuestionSpec(raw.id, raw.instructions, Noul(raw.yes, raw.no)))
    else if raw.kind == "choice" then
      if raw.options.None? then Err(ChoiceWithoutOptions)
      else Ok(QuestionSpec(raw.id, raw.instructions, Choice(raw.options.value)))
    else if raw.kind == "score" then
      if raw.levels.None? then Err(ScoreWithoutLevels)
      else Ok(QuestionSpec(raw.id, raw.instructions, Score(raw.levels.value)))
    else Err(UnknownType)
  }

  /** `questions_from_canonical`. */
  function QuestionsFromCanonical(json: string): Result<(seq<QuestionSpec>, nat), PolicyError> {
    var v := Json.Parse(json);
    var policy := if v.None? then None else AsPolicy(v.value);
    if policy.None? then Err(NotAPolicyDocument)
    else if policy.value.schema != POLICY_SCHEMA || policy.value.shape != ["title", "body"] then Err(UnsupportedSchema)
    else
      var questions := CollectOk(policy.value.questions, Specify);
      if questions.Err? then Err(questions.error)
      else if PolicyText(questions.value, policy.value.maxStateChars) != json then Err(NotCanonical)
      else Ok((questions.value, policy.value.maxStateChars))
  }

  // ---- Round trip ----

  lemma CollectAll<A, B>(s: seq<A>, f: A -> Option<B>, r: seq<B>)
    requires |s| == |r| && forall i | 0 <= i < |s| :: f(s[i]) == Some(r[i])
    ensures Collect(s, f) == Some(r)
  {
    assert Collect(s, f).Some?;
    assert Collect(s, f).value == r;
  }

  lemma TextsRoundTrip(texts: seq<string>)
    ensures AsTexts(Json.Array(Texts(texts))) == Some(texts)
  {
    CollectAll(Texts(texts), AsText, texts);
  }

  lemma AscendingDistinct(members: seq<Json.Member>)
    requires Ascending(members)
    ensures Distinct(Keys(members))
  {
    forall i, j | 0 <= i < j < |members| ensures members[i].key != members[j].key {
      LessAsymmetric(members[i].key, members[j].key);
    }
  }

  lemma FieldsOfTwo(a: Json.Member, b: Json.Member)
    requires a.key != b.key
    ensures Fields(Json.Object([a, b]), [a.key, b.key]) == Some([Some(a.value), Some(b.value)])
  {
    var (members, names) := ([a, b], [a.key, b.key]);
    assert members[0] == a && members[1] == b && Keys(members) == names;
    assert names[0] in names && names[1] in names;
    assert Lookup(members, names[0]) == Some(a.value) && Lookup(members, names[1]) == Some(b.value);
    assert Fields(Json.Object(members), names).value == [Some(a.value), Some(b.value)];
  }

  lemma OptionRoundTrip(o: ChoiceOption)
    ensures AsOption(OptionValue(o)) == Some(o)
  {
    FieldsOfTwo(Json.Member("description", OptionalText(o.description)), Json.Member("label", Json.String(o.name)));
  }

  lemma OptionsRoundTrip(options: seq<ChoiceOption>)
    ensures AsOptions(Json.Array(OptionValues(options))) == Some(options)
  {
    forall i | 0 <= i < |options| ensures AsOption(OptionValues(options)[i]) == Some(options[i]) {
      OptionRoundTrip(options[i]);
    }
    CollectAll(OptionValues(options), AsOption, options);
  }

  function TextField(text: Option<string>): Field {
    if text.None? then None else Some(Json.String(text.value))
  }

  /** `fields` holds, for each name, what `members` has under it. */
  ghost predicate Holds(members: seq<Json.Member>, names: seq<string>, fields: seq<Field>) {
    && |fields| == |names|
    && (forall j | 0 <= j < |members| :: members[j].key in names)
    && (forall i | 0 <= i < |names| :: IsField(members, names[i], fields[i]))
  }

  ghost predicate IsField(members: seq<Json.Member>, name: string, f: Field) {
    if f.None? then forall j | 0 <= j < |members| :: members[j].key != name
    else exists j | 0 <= j < |members| :: members[j] == Json.Member(name, f.value)
  }

  lemma FieldsHeld(members: seq<Json.Member>, names: seq<string>, fields: seq<Field>)
    requires Ascending(members) && Holds(members, names, fields)
    ensures Fields(Json.Object(members), names) == Some(fields)
  {
    AscendingDistinct(members);
    forall i | 0 <= i < |names| ensures Lookup(members, names[i]) == fields[i] {
      assert IsField(members, names[i], fields[i]);
      if fields[i].Some? {
        var j :| 0 <= j < |members| && members[j] == Json.Member(names[i], fields[i].value);
        forall k | 0 <= k < j ensures members[k].key != names[i] {
          assert Keys(members)[k] != Keys(members)[j];
        }
      }
    }
    assert seq(|names|, i requires 0 <= i < |names| => Lookup(members, names[i])) == fields;
  }

  ghost function QuestionFields(q: QuestionSpec): seq<Field> {
    var (id, instructions) := (Some(Json.String(q.id)), Some(Json.String(q.instructions)));
    match q.kind
    case Noul(yes, no) => [id, instructions, Some(Json.String("noul")), TextField(yes), TextField(no), None, None]
    case Choice(options) =>
      [id, instructions, Some(Json.String("choice")), None, None, Some(Json.Array(OptionValues(options))), None]
    case Score(levels) =>
      [id, instructions, Some(Json.String("score")), None, None, None, Some(Json.Array(Texts(levels)))]
  }

  lemma QuestionNames()
    ensures QUESTION_FIELDS[0] == "id" && QUESTION_FIELDS[1] == "instructions" && QUESTION_FIELDS[2] == "type"
    ensures QUESTION_FIELDS[3] == "yes" && QUESTION_FIELDS[4] == "no"
    ensures QUESTION_FIELDS[5] == "options" && QUESTION_FIELDS[6] == "levels"
    ensures Distinct(QUESTION_FIELDS)
  {
  }

  /** When each field is where `at` says, or nowhere, and every member is some field. */
  lemma HoldsWhere(members: seq<Json.Member>, names: seq<string>, fields: seq<Field>, at: seq<nat>)
    requires |fields| == |names| && Distinct(names) && |at| == |members|
    requires forall j | 0 <= j < |members| :: at[j] < |names| && members[j].key == names[at[j]]
    requires forall j | 0 <= j < |members| :: fields[at[j]] == Some(members[j].value)
    requires forall i | 0 <= i < |names| && i !in at :: fields[i].None?
    ensures Holds(members, names, fields)
  {
    forall i | 0 <= i < |names| ensures IsField(members, names[i], fields[i]) {
      if i in at {
        var j :| 0 <= j < |at| && at[j] == i;
        assert members[j] == Json.Member(names[i], fields[i].value);
      }
    }
  }

  lemma NoulHolds(q: QuestionSpec)
    requires q.kind.Noul?
    ensures Holds(QuestionValue(q).members, QUESTION_FIELDS, QuestionFields(q))
  {
    QuestionNames();
    var Noul(yes, no) := q.kind;
    var at := [0, 1] + (if no.Some? then [4] else []) + [2] + (if yes.Some? then [3] else []);
    var t := if no.Some? then 3 else 2;
    assert at[0] == 0 && at[1] == 1 && at[t] == 2 && (no.Some? ==> at[2] == 4) && (yes.Some? ==> at[t + 1] == 3);
    HoldsWhere(QuestionValue(q).members, QUESTION_FIELDS, QuestionFields(q), at);
  }

  lemma QuestionHolds(q: QuestionSpec)
    ensures Holds(QuestionValue(q).members, QUESTION_FIELDS, QuestionFields(q))
  {
    QuestionNames();
    match q.kind
    case Noul(_, _) =>
      NoulHolds(q);
    case Choice(_) =>
      HoldsWhere(QuestionValue(q).members, QUESTION_FIELDS, QuestionFields(q), [0, 1, 5, 2]);
    case Score(_) =>
      HoldsWhere(QuestionValue(q).members, QUESTION_FIELDS, QuestionFields(q), [0, 1, 6, 2]);
  }

  lemma QuestionFieldsFound(q: QuestionSpec)
    ensures Fields(QuestionValue(q), QUESTION_FIELDS) == Some(QuestionFields(q))
  {
    QuestionKeysAscend(q);
    QuestionHolds(q);
    FieldsHeld(QuestionValue(q).members, QUESTION_FIELDS, QuestionFields(q));
  }

  ghost function RawOf(q: QuestionSpec): RawQuestion {
    match q.kind
    case Noul(yes, no) => RawQuestion(q.id, q.instructions, "noul", yes, no, None, None)
    case Choice(options) => RawQuestion(q.id, q.instructions, "choice", None, None, Some(options), None)
    case Score(levels) => RawQuestion(q.id, q.instructions, "score", None, None, None, Some(levels))
  }

  lemma FieldsGiveQuestion(q: QuestionSpec)
    ensures FromFields(QuestionFields(q)) == Some(RawOf(q))
  {
    match q.kind
    case Noul(yes, no) =>
    case Choice(options) => OptionsRoundTrip(options);
    case Score(levels) => TextsRoundTrip(levels);
  }

  lemma SpecifyRaw(q: QuestionSpec)
    ensures Specify(RawOf(q)) == Ok(q)
  {
    assert "choice" != "noul" && "score" != "noul" && "score"[0] != "choice"[0];
  }

  lemma QuestionRoundTrip(q: QuestionSpec)
    ensures AsQuestion(QuestionValue(q)) == Some(RawOf(q))
  {
    QuestionFieldsFound(q);
    FieldsGiveQuestion(q);
  }

  ghost function RawQuestions(questions: seq<QuestionSpec>): seq<RawQuestion> {
    seq(|questions|, i requires 0 <= i < |questions| => RawOf(questions[i]))
  }

  lemma QuestionsRoundTrip(questions: seq<QuestionSpec>)
    ensures AsQuestions(Json.Array(QuestionValues(questions))) == Some(RawQuestions(questions))
    ensures CollectOk(RawQuestions(questions), Specify) == Ok(questions)
  {
    var values := QuestionValues(questions);
    forall i | 0 <= i < |questions|
      ensures AsQuestion(values[i]) == Some(RawQuestions(questions)[i])
      ensures Specify(RawQuestions(questions)[i]) == Ok(questions[i])
    {
      QuestionRoundTrip(questions[i]);
      SpecifyRaw(questions[i]);
    }
    CollectAll(values, AsQuestion, RawQuestions(questions));
    var specified := CollectOk(RawQuestions(questions), Specify);
    assert specified.Ok? && specified.value == questions;
  }

  lemma DocumentRoundTrip(maxStateChars: nat, questions: seq<QuestionSpec>)
    requires maxStateChars < U32
    ensures AsPolicy(Document(maxStateChars, QuestionValues(questions))) ==
      Some(RawPolicy(maxStateChars, POLICY_SCHEMA, RawQuestions(questions), ["title", "body"]))
  {
    var values := QuestionValues(questions);
    var m := Document(maxStateChars, values).members;
    var n := ["max_state_chars", "policy_schema", "questions", "state_shape"];
    var f := [Some(m[0].value), Some(m[1].value), Some(m[2].value), Some(m[3].value)];
    assert Fields(Document(maxStateChars, values), n) == Some(f) by {
      DocumentKeysAscend(maxStateChars, values);
      assert m[0].key == n[0] && m[1].key == n[1] && m[2].key == n[2] && m[3].key == n[3];
      FieldsHeld(m, n, f);
    }
    Json.NatRoundTrip(maxStateChars, U32);
    Json.NatRoundTrip(POLICY_SCHEMA, U64);
    QuestionsRoundTrip(questions);
    TextsRoundTrip(["title", "body"]);
  }

  lemma DocumentWellFormed(maxStateChars: nat, questions: seq<QuestionSpec>)
    ensures Json.WellFormed(Document(maxStateChars, QuestionValues(questions)))
  {
    Json.DecimalIsNumber(maxStateChars);
    Json.DecimalIsNumber(POLICY_SCHEMA);
    forall i | 0 <= i < |questions| ensures Json.WellFormed(QuestionValues(questions)[i]) {
      QuestionWellFormed(questions[i]);
    }
  }

  lemma QuestionWellFormed(q: QuestionSpec)
    ensures Json.WellFormed(QuestionValue(q))
  {
    match q.kind
    case Noul(yes, no) =>
    case Choice(options) =>
      assert forall j | 0 <= j < |options| :: Json.WellFormed(OptionValues(options)[j]);
    case Score(levels) =>
  }

  /** Parsing a printed policy gives back exactly the normalised questions and the limit. */
  lemma PolicyRoundTrip(questions: seq<QuestionSpec>, maxStateChars: nat)
    requires maxStateChars < U32
    ensures QuestionsFromCanonical(PolicyText(questions, maxStateChars)) == Ok((Normalize(questions), maxStateChars))
  {
    var normal := Normalize(questions);
    DocumentWellFormed(maxStateChars, normal);
    Json.RoundTrip(PolicyValue(questions, maxStateChars));
    DocumentRoundTrip(maxStateChars, normal);
    QuestionsRoundTrip(normal);
    NormalizeIdempotent(questions);
  }

  /** Any accepted text is the re-encoding of what it gives, which is already in normal form. */
  lemma AcceptedIsCanonical(json: string)
    ensures QuestionsFromCanonical(json).Ok? ==>
      var (questions, maxStateChars) := QuestionsFromCanonical(json).value;
      maxStateChars < U32 && json == PolicyText(questions, maxStateChars) && questions == Normalize(questions)
  {
    if QuestionsFromCanonical(json).Ok? {
      var (questions, maxStateChars) := QuestionsFromCanonical(json).value;
      PolicyRoundTrip(questions, maxStateChars);
    }
  }

  /** The accepted texts are exactly the printed policies. */
  lemma AcceptedExactly(json: string)
    ensures QuestionsFromCanonical(json).Ok? <==>
      exists questions: seq<QuestionSpec>, maxStateChars: nat :: maxStateChars < U32 && json == PolicyText(questions, maxStateChars)
  {
    if QuestionsFromCanonical(json).Ok? {
      AcceptedIsCanonical(json);
      var (questions, maxStateChars) := QuestionsFromCanonical(json).value;
      assert json == PolicyText(questions, maxStateChars);
    }
    if questions: seq<QuestionSpec>, maxStateChars: nat :| maxStateChars < U32 && json == PolicyText(questions, maxStateChars) {
      PolicyRoundTrip(questions, maxStateChars);
    }
  }

  /** Two policies print the same text exactly when they ask the same. */
  lemma SameTextSamePolicy(q1: seq<QuestionSpec>, m1: nat, q2: seq<QuestionSpec>, m2: nat)
    requires m1 < U32 && m2 < U32
    ensures PolicyText(q1, m1) == PolicyText(q2, m2) <==> Normalize(q1) == Normalize(q2) && m1 == m2
  {
    PolicyRoundTrip(q1, m1);
    PolicyRoundTrip(q2, m2);
  }
}
