# Verified model of the report pipeline

The service reads feeds, asks models and typed-decision providers about articles, renders reports and
publishes them to a Git branch. This project models the parts of it that contain algorithms and proves
what they promise, for every input, every run and every interleaving.

- **Decision policies** (`Question`, `Policy`, `Replay`): questions are normalised and checked, printed as one
  canonical JSON text, and read back only from exactly that text. Replaying a stored body against the
  text gives what the live call gave.
- **Decision answers** (`Response`, `Rounding`, `Provider`, `Jev`, `Laya`): distributions, scores and
  confidences are accepted within tolerances. The tolerances are shown to be wide enough for every
  provider that rounds honestly.
- **Credential scan** (`Credential`): a lexer over bytes that agrees with decoding the whole document.
- **Publishing** (`Conflict`, `Branch`, `Github`): one commit for many reports by optimistic concurrency, with one
  retry, against others who push at any moment and answers that may be refused or lost.
- **Templates and report paths** (`Templates`, `Paths`, `SampleKeys`, `Symbols`, `Collisions`, `PathSafety`, `Prompt`):
  three substitution algorithms and when they agree, the validators in front of them, when two report paths are
  the same, with one template or two, and which paths are safe.
- **Model answers** (`Extractor`): the scanner that finds a JSON object inside other text.
- **Canonical and bounded texts** (`Links`, `Frontmatter`, `Diagnostics`): feed links, YAML scalars, and texts cut to a byte budget.
- **Metrics endpoint** (`Headers`): the request head is read the same way however the bytes arrive.

`Wrappers`, `Text`, `Utf8` and `Json` hold what these share: results, substring search, UTF-8 (RFC 3629), and JSON
printing and parsing (RFC 8259, sections 2 to 7). A Rust `String` is a sequence of `char` or its UTF-8
bytes, whichever the code at hand works on; JSON printing is that of serde_json's compact form.

Where the code keeps a promise of its comments only in part, the limits are theorems:

- The sample rendering of a path template agrees with the real one, for all templates, exactly for the keys that
  form no later token, neither inside the key nor across two copies of it (`SampleKeys.AgreesExactly`). Any other
  key has a template on which they differ (`SampleKeys.UnfaithfulDiffers`), and the check on keys admits such keys
  (`Paths.BracedKeyDiffers`).
- For categories that share a template, a path without collisions at the sample date has none on any two dates,
  whatever the keys (`Collisions.NeverOverwritten`). For different templates the sample date does not decide
  (`Collisions.SampleMissesOtherTemplates`), but the templates and keys do, before any rendering: two categories
  ever share a path on one day exactly if their places agree for some day of the calendar
  (`Collisions.OverwrittenExactly`).
- Redacting a token is sure to remove it from every message exactly if the token neither starts nor ends with an
  asterisk and has no three of them in a row (`Conflict.RedactionIsSure`). What is put in front of and behind a
  redacted message can bring the token back, and it is known when (`Conflict.TokenInKeptMessage`,
  `Conflict.MarkerHoldsToken`).
- A category token in the template keeps two categories apart exactly if it is the literal one or their keys
  differ in more than ASCII case (`Paths.CategoryTokenSeparates`).
- A validated template with a safe key always gives a path inside the publish root (`PathSafety.PathInside`), but
  the publisher refuses some of these paths: exactly those in which two dots meet, which template and key decide
  (`PathSafety.PublisherAccepts`).
- The retry signal of an error body that is not JSON survives redaction exactly if the token is not a piece of
  the signal, and never with an empty token (`Conflict.UndecodableBody`).

Run `dafny verify dfyconfig.toml` with Dafny 4.11 to check everything.

## Model

| member | source | states |
|---|---|---|
| Json.RoundTrip | crates/decision/src/policy.rs:19-30 | every value that serde_json prints parses back as itself, with nested objects, escapes and numbers |
| Question.NormalizeIdempotent | crates/decision/src/question.rs:45-86 | normalising twice is normalising once |
| Question.CheckLabels | crates/decision/src/question.rs:183-193 | pushes one issue for each empty and each repeated label, in order, after the issues found before |
| Question.CheckCommon | crates/decision/src/question.rs:121-174 | the loop over questions reports the issues of each question in order, ids compared with all earlier good ones |
| Question.CommonIssuesMeaning | crates/decision/src/question.rs:116-193 | no issue is reported exactly for lists within the caps, with valid and pairwise different ids, and distinct, non-empty labels |
| Question.LevelIssuesMeaning | crates/decision/src/provider/jev.rs:32-43 | what the level checks report are exactly the indices of the score questions over the limit, ascending, none twice |
| Policy.CanonicalQuestion | crates/decision/src/policy.rs:114-147 | inserting the fields one by one builds the value that the round trip is about |
| Policy.CanonicalPolicy | crates/decision/src/policy.rs:19-30 | the text is the print of the normalised questions, the limit, the schema and the state shape |
| Policy.TextIgnoresMapKind | crates/decision/src/policy.rs:19-30 | keys are inserted in ascending order, so a sorted map and one that keeps insertion order print the same text |
| Policy.PolicyRoundTrip | crates/decision/src/policy.rs:69-112 | parsing the text of any questions and limit gives back exactly the normalised questions and the limit |
| Policy.AcceptedIsCanonical | crates/decision/src/policy.rs:67-112 | every accepted text is its own re-encoding, and its questions are already normalised |
| Policy.AcceptedExactly | crates/decision/src/policy.rs:67-112 | a text is accepted if and only if it is the canonical text of some policy |
| Policy.SameTextSamePolicy | crates/decision/src/policy.rs:19-34 | two policies have the same text, hence version, exactly if their normalised questions and limits are equal |
| Response.VisitMap | crates/decision/src/response.rs:159-190 | an object is read if and only if no key is repeated and every value decodes; its entries are then the members in document order |
| Response.SwapRemoved | crates/decision/src/response.rs:192-197 | swapping the last entry into the gap removes exactly one key from the map that the entries form |
| Response.UniqueMap.Take | crates/decision/src/response.rs:192-197 | gives the value under the key and leaves the map without it, or changes nothing |
| Response.Distribution | crates/decision/src/response.rs:217-237 | taking one label after another from the entries gives what the map alone decides |
| Response.DistributionMeaning | crates/decision/src/response.rs:215-237 | success if and only if the keys are exactly the labels, each value is in [0, 1] and the sum is within tolerance; entry i is then the value under label i |
| Response.OrderIndependent | crates/decision/src/response.rs:217-237 | any reordering of the document is the same map, so the outcome is the same |
| Rounding.LevelsFormula | crates/decision/src/response.rs:247-260 | the sum of the levels is n(n-1)/2, the factor in the tolerance of the score |
| Rounding.DistributionComplete | crates/decision/src/response.rs:215-237 | every monotone rounding of a true distribution within eps per value is accepted, for any number of labels |
| Rounding.ExpectationComplete | crates/decision/src/response.rs:247-264 | the rounded score of a rounded distribution is always within eps·(n(n-1)/2+1) of the expectation of the rounded values |
| Rounding.RoundedArgmax | crates/decision/src/response.rs:239-245 | rounding never demotes a most probable label |
| Rounding.RoundedMax | crates/decision/src/response.rs:266-268 | the maximum of the rounded values is the rounded maximum |
| Provider.LabelsDistinct | crates/decision/src/provider/mod.rs:199-209 | the labels of a valid question, options or level numbers, are pairwise different |
| Provider.PairAnswers | crates/decision/src/provider/mod.rs:170-193 | the loop that takes one answer per question gives what the map of answers decides |
| Provider.PairedMeaning | crates/decision/src/provider/mod.rs:170-193 | success if and only if each question has its own decodable answer, in question order, and none is left over |
| Jev.Validate | crates/decision/src/provider/jev.rs:32-43 | one issue for each score question with more than 10 levels, once each and in question order, and nothing else, after the issues found before |
| Jev.TwoDecimalsRound | crates/decision/src/response.rs:215-237 | rounding to two decimals, halves up, is one of the roundings that the completeness results are about |
| Jev.Complete | crates/decision/src/provider/jev.rs:83-147 | every rounded answer as Jev documents it is accepted with its rounded values: noul with or without a confidence, choice and score with one, an answer confidence ignored |
| Laya.Validate | crates/decision/src/provider/laya.rs:41-54 | one issue for each score question with more than 50 levels, once each and in question order, and nothing else, after the issues found before |
| Laya.NearMaxComplete | crates/decision/src/provider/laya.rs:118-128 | two rounded maxima of one pair of probabilities are always within 2·eps |
| Laya.FourDecimalsRound | crates/decision/src/provider/laya.rs:130-211 | so is rounding to four decimals, within Laya's tolerance |
| Laya.Complete | crates/decision/src/provider/laya.rs:130-211 | every rounded answer whose confidence and answer confidence are rounded maxima, as Laya documents them, passes the sum, argmax, score and both near-maximum checks |
| Replay.ReplayAgrees | crates/decision/src/replay.rs:12-34 | the live call accepts a body with a response if and only if the questions are valid, replay from their snapshot gives that response, for any stored length, and it does not reflect the key |
| Replay.HonestResponseAccepted | crates/decision/src/client.rs:321-353 | a whole response of rounded answers, each in the form its provider documents, decodes for valid questions, with Jev and with Laya |
| Credential.FindLiteralEnd | crates/decision/src/client.rs:476-481 | the inner loop finds the end of the literal, in bounds on any bytes |
| Credential.ScanCredential | crates/decision/src/client.rs:462-490 | the scan gives the verdict on the key, the bytes and their literals in order; it ends on any bytes |
| Credential.StringToken | crates/decision/src/client.rs:473-482 | the lexer cuts out exactly the token that a JSON parser reads as a string, surrogate pairs and escapes included |
| Credential.ScanOfDocument | crates/decision/src/client.rs:458-490 | on every JSON document, however spaced and escaped, the scan finds the key exactly if it is in the bytes or in a decoded key or text, duplicates included |
| Credential.CleanSegments | crates/decision/src/client.rs:458-490 | on any body of quote-free bytes and string tokens, Clean if and only if the key is not in the bytes and every token decodes to a text without it |
| Conflict.ResponseMessage | crates/publish/src/github.rs:549-581 | the message is the redacted one, with a conflict marked in front when too long, cut to 8 KiB |
| Conflict.RetryDecisionKept | crates/publish/src/github.rs:174-187 | for every status and length, the capped message is at most 8192 bytes and is retried exactly if status is 422 and the uncapped message says so |
| Conflict.UndecodableBody | crates/publish/src/github.rs:559-574 | a body that is not JSON keeps the retry signal if and only if the redacted body has it and the token is no piece of the signal; with an empty token it is lost |
| Conflict.JsonMessage | crates/publish/src/github.rs:550-575 | of a JSON error the last `message` is kept, with the token replaced |
| Conflict.RedactionIsSure | crates/publish/src/github.rs:568-574 | replacing the token removes it from every message if and only if it neither starts nor ends with an asterisk nor holds three in a row |
| Conflict.TokenScrubbed | crates/publish/src/github.rs:568-574 | for such a token the redacted message, before it is marked and cut, never holds it, whatever the body |
| Conflict.TokenInKeptMessage | crates/publish/src/github.rs:575-580 | if the redacted message does not hold the token, one without space, colon and ellipsis, then the kept message does if and only if the conflict mark was put in front and its signal holds the token, or the message was cut and the truncation marker holds it |
| Conflict.MarkerHoldsToken | crates/publish/src/github.rs:575-580 | this happens: with the token "truncated" a long error message without that word is kept with it |
| Branch.AncestorStays | crates/publish/src/github.rs:359-380 | creating commits never changes what is an ancestor of what |
| Branch.FastForwardIffUnmoved | crates/publish/src/github.rs:382-393 | an unforced update to a commit on a former head succeeds if and only if that head still is the head |
| Branch.MovedQuiet | crates/publish/src/github.rs:133-137 | whatever others create and push, the branch only grows and none of the publisher's commits lands |
| Branch.PrivateUnseen | crates/publish/src/github.rs:190-230 | a commit that did not land is an ancestor of nothing else |
| Branch.RunIsSafe | crates/publish/src/github.rs:115-230 | over every run of concrete steps, others' moves, drafted commits and updates, granted or refused, from any valid repository: what was on the branch at any point is still part of it at any later point |
| Branch.LandsExactly | crates/publish/src/github.rs:190-230 | over every such run, a private commit becomes part of the branch if and only if an update to it is asked for, granted, and a fast-forward at that moment; one that is never asked for or always refused never does |
| Github.OverlayHolds | crates/publish/src/github.rs:340-357 | the new tree has the last report under each path |
| Github.OverlayKeeps | crates/publish/src/github.rs:340-357 | every other file is as in the base tree |
| Github.Remote.Await | crates/publish/src/github.rs:133-137 | before each request the others do what the schedule says, and nothing of the publisher's lands |
| Github.Remote.GetHead | crates/publish/src/github.rs:307-321 | the head at the time of the request, or an error |
| Github.Remote.GetTree | crates/publish/src/github.rs:323-336 | the tree of the commit asked for, or an error |
| Github.Remote.CreateTree | crates/publish/src/github.rs:340-357 | the base tree overlaid with the entries, or an error |
| Github.Remote.CreateCommit | crates/publish/src/github.rs:359-380 | a fresh commit with this tree and parent that nobody has seen, or an error |
| Github.Remote.UpdateRef | crates/publish/src/github.rs:382-393 | success only if the commit's parent is the head it replaces; otherwise nothing lands, unless the answer was lost |
| Github.Remote.GetContents | crates/publish/src/github.rs:395-428 | the content at the path in the head, if there is one, or an error |
| Github.Remote.PutContents | crates/publish/src/github.rs:430-480 | one commit on the head that changes one file, only if what it replaces is what was read |
| Github.Publish | crates/publish/src/github.rs:101-113 | an invalid path makes no request; otherwise one commit with the report lands, or none does unless an answer was lost |
| Github.Gather | crates/publish/src/github.rs:194-209 | one tree entry and one artifact per report in order, or the first invalid path |
| Github.Stamp | crates/publish/src/github.rs:223-225 | every artifact carries the commit |
| Github.HeadCommitAndTree | crates/publish/src/github.rs:307-338 | a commit that was head and its tree, although the head may move between the two reads |
| Github.Draft | crates/publish/src/github.rs:211-220 | a private commit of all reports on a head that was read; nothing lands |
| Github.PublishedFiles | crates/publish/src/github.rs:190-230 | after a commit has landed, the branch shows the last report under each path, every other file as on the head it replaced, and all earlier history |
| Github.NothingEverLost | crates/publish/src/github.rs:115-230 | over the whole life of a remote, with any calls of the publisher in any order, every commit that was on the branch after any logged step still is part of it |
| Github.PublishManyAtomic | crates/publish/src/github.rs:190-230 | success means exactly one commit landed, its parent is the head it replaced and its tree that head's tree overlaid with the reports; an error means none landed unless an answer was lost |
| Github.PublishBatch | crates/publish/src/github.rs:144-170 | at most two attempts, never two commits; a conflict is retried from a fresh head and succeeds if nobody pushes again; the loop never ends without an answer |
| Github.PublishMany | crates/publish/src/github.rs:115-171 | an empty list makes no request; otherwise one commit with all reports or none, and success whenever nobody interferes |
| Templates.PiecesSource | crates/report/src/render.rs:183-214 | reading a template into pieces loses no character |
| Templates.ApplyTemplate | crates/report/src/render.rs:183-214 | the output is the pieces with values in place of known placeholders, unknown and unclosed ones kept |
| Templates.ValidateTemplatePlaceholders | crates/config/src/validate/checks.rs:658-704 | one issue per stray brace and unknown name, in order |
| Templates.ValidatorRecognises | crates/config/src/validate/checks.rs:658-704 | no issue if and only if the template splits into brace-free literals and allowed placeholders |
| Templates.RenderedOnce | crates/report/src/render.rs:183-214 | on such templates the output is exactly the literals with values in place, and braces in values are never read again |
| Templates.ContainsHole | crates/config/src/validate/checks.rs:563-575 | in a valid template a placeholder is found as a substring exactly if it is one of the pieces |
| Templates.ReplaceHole | crates/config/src/validate/checks.rs:506-516 | `str::replace` of a placeholder replaces exactly those pieces |
| Templates.ChainIsSimultaneous | crates/config/src/validate/checks.rs:506-516 | replacing one placeholder after another equals replacing all at once, for values without braces |
| Paths.DateText | crates/report/src/render.rs:268-308 | an accepted date is year, month and day of a day in the calendar, of fixed width, joined by hyphens |
| Paths.DateParses | crates/report/src/render.rs:268-308 | conversely, every day of the calendar so written is accepted, with these parts |
| Paths.RenderPath | crates/report/src/render.rs:90-102 | the path is the template filled with the key and the date, or an error for an invalid date |
| Paths.EqualPaths | crates/report/src/render.rs:90-102 | two paths of one valid template are equal if and only if every category and date token used has equal values, whatever the lengths of the keys |
| Paths.PathsSeparate | crates/config/src/validate/checks.rs:563-582 | with a date token, two paths are equal if and only if the dates are and the template does not tell the keys apart |
| Paths.CategoryTokenSeparates | crates/config/src/validate/checks.rs:457-465 | with a category token, different keys share a path if and only if only the upper-case token is used and the keys differ in ASCII case only |
| SampleKeys.SampleIsPath | crates/config/src/validate/checks.rs:503-516 | the chain of replacements gives the path of the sample date, for every valid template and every key that forms no later token |
| SampleKeys.UnfaithfulDiffers | crates/config/src/validate/checks.rs:503-516 | for every other key it builds a valid template on which the two algorithms differ |
| SampleKeys.AgreesExactly | crates/config/src/validate/checks.rs:503-516 | hence the two algorithms agree on all valid templates if and only if the key forms no later token, inside itself or across two copies with part of a name between |
| SampleKeys.OneKindOfBrace | crates/config/src/validate/checks.rs:592-615 | a key that has not both kinds of brace forms no token |
| SampleKeys.SampleShowsCollisions | crates/config/src/validate/checks.rs:457-465 | two such keys collide at the sample date if and only if they collide on any given date |
| SampleKeys.SameKeysSameSample | crates/config/src/validate/checks.rs:503-516 | two keys, with braces or not, that the template does not tell apart have the same sample path |
| Paths.BracedKeyDiffers | crates/config/src/validate/checks.rs:592-615 | a key that reads as a date placeholder gets different paths from the two algorithms |
| Symbols.DateIsDay | crates/report/src/render.rs:268-308 | every accepted date is some day of the calendar, written out; with Symbols.DayIsDate the two sets are the same |
| Symbols.DayIsDate | crates/report/src/render.rs:268-308 | every day of the calendar, written out, is an accepted date with its parts |
| Symbols.PathIsEval | crates/report/src/render.rs:90-102 | a path is a list of fixed characters and date digits, known from template and key alone, with the digits of the date in place |
| Symbols.SamePathExactly | crates/report/src/render.rs:90-102 | the paths of two valid templates, keys and dates are equal if and only if their lists agree place by place on these digits |
| Symbols.ApartNeverMeet | crates/config/src/validate/checks.rs:457-465 | lists of different length, with two different characters at a place, or with a character that is no digit against a date digit, give different paths on all dates |
| Symbols.CollideExactly | crates/config/src/validate/checks.rs:457-465 | two valid templates and keys share a path on some date if and only if the equations of their places are solved by some day of the calendar |
| Collisions.CollectCollisions | crates/config/src/validate/checks.rs:466-501 | exactly the sample paths of more than one category, each with its keys |
| Collisions.ReportedIffShared | crates/config/src/validate/checks.rs:487-489 | a path is reported if and only if two categories have it |
| Collisions.ReportedIffOverwritten | crates/config/src/validate/checks.rs:457-501 | categories that share a template, with keys that form no later token, are reported if and only if their reports have the same path, on every date |
| Collisions.NeverOverwritten | crates/config/src/validate/checks.rs:457-501 | if nothing is reported, reports of different categories that share a dated template never have the same path, whatever the keys and on any two dates |
| Collisions.OverwrittenExactly | crates/config/src/validate/checks.rs:457-501 | two categories with any templates ever write one path on one day if and only if their lists of characters and date digits agree for some day |
| Collisions.SampleMissesOtherTemplates | crates/config/src/validate/checks.rs:503-505 | two valid templates whose sample paths differ have the same path whenever day and month are equal |
| PathSafety.HasParentMeaning | crates/config/src/validate/checks.rs:551-562 | reading left to right finds a parent component exactly if splitting at slashes does |
| PathSafety.PathInside | crates/config/src/validate/checks.rs:518-615 | the fixed sample key stands for every safe key: whatever the key and date, the path of a validated template is relative and has no parent component |
| PathSafety.PublisherAccepts | crates/publish/src/github.rs:534-547 | of these paths the publisher accepts exactly those in which no two dots meet, within the key or where two pieces of the template touch |
| PathSafety.DottedKeyRefused | crates/config/src/validate/checks.rs:592-615 | a key with two dots inside passes validation, and every report of it is refused |
| Extractor.ExtractFirstJsonObject | crates/ai/src/parser.rs:99-136 | the loop gives the bytes from the first brace to the one that closes it; depth never goes below zero on any text |
| Extractor.NothingFound | crates/ai/src/parser.rs:99-136 | None if and only if no brace opens or the depth never returns to zero |
| Extractor.ObjectFound | crates/ai/src/parser.rs:99-136 | after any text without an opening brace and before any text, exactly the object is returned, for every text that a JSON parser reads as one, however spaced and escaped |
| Extractor.PrintedObjectFound | crates/ai/src/parser.rs:99-136 | in particular every printed object |
| Extractor.AnswerFound | crates/ai/src/parser.rs:66-77 | an answer surrounded by other text, however spaced, is decoded as if it stood alone, unless the whole text decodes |
| Links.SerializeRoundTrip | crates/domain/src/link_normalizer.rs:99-105 | pairs that were appended to a query are read back, in order and whatever characters they hold |
| Links.SortSorts | crates/domain/src/link_normalizer.rs:97-97 | sorting by key and value gives the same pairs in order |
| Links.SortedUnique | crates/domain/src/link_normalizer.rs:97-97 | there is one such order |
| Links.CanonicalMeaning | crates/domain/src/link_normalizer.rs:86-106 | the canonical query holds exactly the untracked pairs of the query, sorted |
| Links.SameCanonicalQuery | crates/domain/src/link_normalizer.rs:86-106 | two queries become equal if and only if their multisets of untracked decoded pairs are equal |
| Links.CanonicalQueryIdempotent | crates/domain/src/link_normalizer.rs:86-106 | a canonical query stays as it is |
| Links.SameCanonicalPath | crates/domain/src/link_normalizer.rs:74-84 | two paths become equal if and only if they differ in trailing slashes only, and the result is stable |
| Links.Url.NormalizePath | crates/domain/src/link_normalizer.rs:74-84 | trims the trailing slashes in place and changes nothing else |
| Links.Url.NormalizeQuery | crates/domain/src/link_normalizer.rs:86-106 | puts the canonical query in place and changes nothing else |
| Links.Url.AppendPairs | crates/domain/src/link_normalizer.rs:101-104 | appending pair after pair writes the serialised list |
| Links.Url.Normalize | crates/domain/src/link_normalizer.rs:37-63 | rejects other schemes and empty hosts unchanged; otherwise drops user, password and fragment and canonicalises path and query |
| Links.SameCanonicalLink | crates/domain/src/link_normalizer.rs:37-72 | two accepted links become equal if and only if scheme, host, port, path up to slashes and untracked pairs agree; normalising is idempotent |
| Frontmatter.YamlEscape | crates/report/src/frontmatter.rs:23-43 | the loop writes the escaped text in quotes, or the text itself when it is safe |
| Frontmatter.ScalarRoundTrip | crates/report/src/frontmatter.rs:16-70 | a YAML 1.2.2 reader gets every text back as that string: quoted results decode to it, plain results are it and nothing else |
| Frontmatter.ScalarClean | crates/report/src/frontmatter.rs:72-82 | no result holds a line break or a control character |
| Frontmatter.FiveLines | crates/report/src/frontmatter.rs:7-14 | the block has exactly its five lines whatever the title and excerpt |
| Diagnostics.PrefixLongest | crates/domain/src/error.rs:46-50 | no longer prefix on a char boundary fits |
| Diagnostics.FloorBoundary | crates/domain/src/error.rs:46-50 | stepping left stops at the last char boundary, at most three bytes away |
| Diagnostics.TruncateDiagnostic | crates/domain/src/error.rs:40-55 | the text itself if it fits, else the longest prefix that leaves room for the marker, and the marker; never underflows for 64-bit lengths |
| Diagnostics.TruncatedFits | crates/domain/src/error.rs:35-55 | at most the limit, within three bytes of it when cut, and idempotent |
| Diagnostics.PrintNoControl | crates/runtime/src/events.rs:84-86 | printed JSON has no control characters |
| Diagnostics.EscapeDoubles | crates/runtime/src/events.rs:84-86 | so encoding it again at most doubles its bytes |
| Diagnostics.TruncateSerialized | crates/runtime/src/events.rs:73-93 | the text, or the envelope with the longest preview of half the remaining budget |
| Diagnostics.SerializedFits | crates/runtime/src/events.rs:73-93 | for every value at most 4096 bytes of valid JSON: the value itself, or its length and a prefix of at least 1945 bytes |
| Headers.Socket.Read | crates/observability/src/prometheus.rs:269-275 | a read takes some bytes off the stream into the buffer, none only at the end of the stream |
| Headers.ReadHead | crates/observability/src/prometheus.rs:266-291 | however the stream is cut into reads, the result is the index past the first delimiter in the first 4096 bytes, or that there is none |
| Headers.HandleMetricsConnection | crates/observability/src/prometheus.rs:262-310 | the answer depends on the bytes alone |
| Headers.AnswerMeaning | crates/observability/src/prometheus.rs:276-290 | 400 if and only if 4096 bytes came without a delimiter; what follows the head never matters |
| Headers.RouteMeaning | crates/observability/src/prometheus.rs:292-307 | a request line is answered with the metrics exactly for GET, the metrics path and the two versions |
| Prompt.PromptValues | crates/ai/src/prompt.rs:13-28 | title, truncated body and category key are the values of their placeholders |
| Prompt.RenderPrompt | crates/ai/src/prompt.rs:13-36 | the output is the template's pieces with values in place; inserted text is never read |
| Prompt.PromptPiecesSource | crates/ai/src/prompt.rs:17-34 | reading a prompt template loses no character |
| Prompt.ReplacedExactly | crates/ai/src/prompt.rs:13-36 | a placeholder occurs at a place of the template if and only if its value is put there |
| Prompt.UnsupportedMeaning | crates/config/src/validate/warnings.rs:160-175 | the warning is given if and only if some `{identifier}` is not a placeholder |
| Prompt.SilentMeansReplaced | crates/config/src/validate/warnings.rs:160-175 | without the warning, every `{identifier}` of the template is replaced |

## Left out

- HTTP, TLS, timeouts, tasks, databases, leases, metrics bookkeeping and file publishing: I/O.
- Floating point: probabilities and scores are real numbers, and tolerances are compared exactly.
- Typed decoding of provider responses: the body parser is a parameter that live decoding and replay share; the policy document is parsed in full.
- Numbers that serde_json's `Value` rejects or rewrites (out of range, lost precision) and its nesting limit: JSON numbers keep their literal.
- Unicode white space is a fixed set of code points; lower-casing in error messages maps ASCII letters only, since no other character's lower-case form has a letter of the two phrases searched for; the final sigma rule cannot matter for the same reason.
- The pattern of YAML numbers is a parameter, the same for writer and reader.
- SHA-256, URL parsing and serialisation outside path and query, and the re-encoding that `set_path` may do on a path that is already encoded.
- Commit messages, authors and file modes.
- Git object names: a commit is named by its place among all commits and a tree by its contents, so two commits never have the same name; duplicate paths in one tree request take the last content.
- Github.PublishBatch: each request is taken to be sent at most once. The HTTP client is built with its `retry` feature (Cargo.toml:104); were a PATCH sent again after it had landed, the second could be answered 422, and the batch be published twice.
- Github.Remote.UpdateRef: others are assumed never to build on a commit whose name only the publisher knows.
- Collisions.CollectCollisions: the order in which collisions are reported, by path and with sorted keys, is not modelled.
- Windows path prefixes; markdown escaping, item selection and excerpts: single checks and lookups.
- Error texts, field paths and JSON classification names: an error is modelled by its kind and the values it carries.
