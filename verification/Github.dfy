/** The publisher: reports become one commit on a branch that others push to as well. */
module Github {
  import opened Wrappers
  import opened Text
  import opened Conflict
  import opened Branch

  // ---- Paths ----

  /** `validate_path_part`, with the path rules of Unix. */
  predicate ValidPart(path: string) {
    path != "" && !Contains(path, "..") && path[0] != '/'
  }

  function TrimSlashes(s: string): string
    decreases |s|
  {
    if s != "" && s[0] == '/' then TrimSlashes(s[1..])
    else if s != "" && s[|s| - 1] == '/' then TrimSlashes(s[..|s| - 1])
    else s
  }

  datatype Config = Config(owner: string, repo: string, branch: string, pathPrefix: string)

  function JoinPath(cfg: Config, relative: string): Result<string, PublishError> {
    var prefix := TrimSlashes(cfg.pathPrefix);
    if !ValidPart(relative) then Err(InvalidPath(relative))
    else if prefix == "" then Ok(Replace(relative, "\\", "/"))
    else if !ValidPart(prefix) then Err(InvalidPath(prefix))
    else Ok(Replace(prefix, "\\", "/") + "/" + Replace(relative, "\\", "/"))
  }

  function TargetUrl(cfg: Config, path: string): string {
    "github://" + cfg.owner + "/" + cfg.repo + "/" + cfg.branch + "/" + path
  }

  // ---- Reports and trees ----

  datatype Report = Report(relativePath: string, markdown: string)
  datatype Entry = Entry(path: string, content: string)
  datatype Artifact = Artifact(commitSha: Option<nat>, remoteTarget: string)
  datatype Batch = Batch(artifacts: seq<Artifact>, commitSha: Option<nat>)

  function EntryOf(cfg: Config, report: Report): Result<Entry, PublishError> {
    var path :- JoinPath(cfg, report.relativePath);
    Ok(Entry(path, report.markdown))
  }

  /** The entries of all reports, unless one has a path that is not allowed: the first such decides. */
  function EntriesOf(cfg: Config, reports: seq<Report>): Result<seq<Entry>, PublishError> {
    if reports == [] then Ok([])
    else
      var first :- EntryOf(cfg, reports[0]);
      var more :- EntriesOf(cfg, reports[1..]);
      Ok([first] + more)
  }

  function Then(done: seq<Entry>, more: Result<seq<Entry>, PublishError>): Result<seq<Entry>, PublishError> {
    if more.Err? then more else Ok(done + more.value)
  }

  lemma ThenEmpty(more: Result<seq<Entry>, PublishError>)
    ensures Then([], more) == more
  {
    if more.Ok? {
      assert [] + more.value == more.value;
    }
  }

  lemma EntriesStep(cfg: Config, reports: seq<Report>, i: nat, done: seq<Entry>)
    requires i < |reports|
    ensures Then(done, EntriesOf(cfg, reports[i..])) ==
      var first := EntryOf(cfg, reports[i]);
      if first.Err? then Err(first.error) else Then(done + [first.value], EntriesOf(cfg, reports[i + 1..]))
  {
    assert reports[i..][0] == reports[i] && reports[i..][1..] == reports[i + 1..];
    var first, more := EntryOf(cfg, reports[i]), EntriesOf(cfg, reports[i + 1..]);
    if first.Ok? && more.Ok? {
      Associate(done, [first.value], more.value);
    }
  }

  function BatchOf(cfg: Config, entries: seq<Entry>, c: Option<nat>): Batch {
    Batch(seq(|entries|, i requires 0 <= i < |entries| => Artifact(c, TargetUrl(cfg, entries[i].path))), c)
  }

  /** A tree made on a base tree: a later entry replaces an earlier one. */
  function Overlay(base: Tree, entries: seq<Entry>): Tree {
    if entries == [] then base
    else
      var last := entries[|entries| - 1];
      Overlay(base, entries[..|entries| - 1])[last.path := last.content]
  }

  /** The new tree holds the last report under each path ... */
  lemma {:induction false} OverlayHolds(base: Tree, entries: seq<Entry>, i: nat)
    requires i < |entries| && forall j | i < j < |entries| :: entries[j].path != entries[i].path
    ensures entries[i].path in Overlay(base, entries) && Overlay(base, entries)[entries[i].path] == entries[i].content
  {
    if i < |entries| - 1 {
      OverlayHolds(base, entries[..|entries| - 1], i);
    }
  }

  /** ... and nothing else has changed. */
  lemma {:induction false} OverlayKeeps(base: Tree, entries: seq<Entry>, path: string)
    requires forall i | 0 <= i < |entries| :: entries[i].path != path
    ensures path in Overlay(base, entries) <==> path in base
    ensures path in base ==> Overlay(base, entries)[path] == base[path]
  {
    if entries != [] {
      OverlayKeeps(base, entries[..|entries| - 1], path);
    }
  }

  // ---- The remote side ----

  /** The answer never came, or not in a form the client takes. */
  datatype Loss = Network(message: string) | TooLarge | Unreadable(message: string)

  function LossError(loss: Loss): PublishError {
    match loss
    case Network(message) => GitHubApiError(503, message)
    case TooLarge => ResponseTooLarge
    case Unreadable(message) => GitHubApiError(502, message)
  }

  /** What becomes of a request: done, refused, or done with the answer lost. */
  datatype Outcome = Served | Refused(error: PublishError) | Lost(loss: Loss)

  /** What the others do before a request, and what becomes of it. */
  datatype Turn = Turn(moves: seq<Move>, outcome: Outcome)

  predicate AllServed(turns: seq<Turn>) {
    forall i | 0 <= i < |turns| :: turns[i].outcome == Served
  }

  /** Nobody else does anything. */
  predicate Calm(turns: seq<Turn>) {
    forall i | 0 <= i < |turns| :: turns[i] == Turn([], Served)
  }

  function After(turns: seq<Turn>, n: nat): seq<Turn> {
    if n <= |turns| then turns[n..] else []
  }

  /** GitHub, driven by a schedule of what the others do. */
  class Remote {
    var repo: Repo
    var turns: seq<Turn>
    const rejection: string

    /** The repository at the start, and all steps since. */
    ghost var first: Repo
    ghost var log: seq<Step>

    constructor (repo: Repo, turns: seq<Turn>, rejection: string)
      requires Valid(repo)
      ensures this.repo == repo && this.turns == turns && this.rejection == rejection
      ensures Intact() && first == repo && log == []
    {
      this.repo := repo;
      this.turns := turns;
      this.rejection := rejection;
      first := repo;
      log := [];
    }

    /** The repository is what the logged steps have made of it. */
    ghost predicate Intact()
      reads this
    {
      Valid(first) && Valid(repo) && RunOf(first, log) == repo
    }

    /** The log has only grown. */
    ghost predicate Continues(start: Repo, steps: seq<Step>)
      reads this
    {
      Intact() && first == start && steps <= log
    }

    /** The others go first. */
    method Await() returns (outcome: Outcome)
      requires Intact()
      modifies this
      ensures Quiet(old(repo), repo) && repo.own == old(repo).own
      ensures turns == After(old(turns), 1)
      ensures Continues(old(first), old(log))
      ensures outcome == if old(turns) == [] then Served else old(turns)[0].outcome
      ensures repo == if old(turns) == [] then old(repo) else Moved(old(repo), old(turns)[0].moves)
    {
      outcome := Served;
      if turns != [] {
        outcome := turns[0].outcome;
        MovedQuiet(repo, turns[0].moves);
        LogMoves(first, log, turns[0].moves);
        log := log + OthersOf(turns[0].moves);
        repo := Moved(repo, turns[0].moves);
        turns := turns[1..];
      }
    }

    method GetHead() returns (r: Result<nat, PublishError>)
      requires Intact()
      modifies this
      ensures Quiet(old(repo), repo) && repo.own == old(repo).own
      ensures turns == After(old(turns), 1)
      ensures Continues(old(first), old(log))
      ensures r.Ok? ==> r.value == Head(repo)
      ensures AllServed(old(turns)) ==> r.Ok?
      ensures Calm(old(turns)) ==> repo == old(repo)
    {
      var outcome := Await();
      match outcome
      case Served => r := Ok(Head(repo));
      case Refused(error) => r := Err(error);
      case Lost(loss) => r := Err(LossError(loss));
    }

    method GetTree(c: nat) returns (r: Result<Tree, PublishError>)
      requires Intact() && c < |repo.commits|
      modifies this
      ensures Quiet(old(repo), repo) && repo.own == old(repo).own
      ensures turns == After(old(turns), 1)
      ensures Continues(old(first), old(log))
      ensures r.Ok? ==> r.value == repo.commits[c].tree
      ensures AllServed(old(turns)) ==> r.Ok?
      ensures Calm(old(turns)) ==> repo == old(repo)
    {
      var outcome := Await();
      match outcome
      case Served => r := Ok(repo.commits[c].tree);
      case Refused(error) => r := Err(error);
      case Lost(loss) => r := Err(LossError(loss));
    }

    method CreateTree(base: Tree, entries: seq<Entry>) returns (r: Result<Tree, PublishError>)
      requires Intact()
      modifies this
      ensures Quiet(old(repo), repo) && repo.own == old(repo).own
      ensures turns == After(old(turns), 1)
      ensures Continues(old(first), old(log))
      ensures r.Ok? ==> r.value == Overlay(base, entries)
      ensures AllServed(old(turns)) ==> r.Ok?
      ensures Calm(old(turns)) ==> repo == old(repo)
    {
      var outcome := Await();
      match outcome
      case Served => r := Ok(Overlay(base, entries));
      case Refused(error) => r := Err(error);
      case Lost(loss) => r := Err(LossError(loss));
    }

    method CreateCommit(tree: Tree, parent: nat) returns (r: Result<nat, PublishError>)
      requires Intact() && parent in repo.heads
      modifies this
      ensures Quiet(old(repo), repo)
      ensures turns == After(old(turns), 1)
      ensures Continues(old(first), old(log))
      ensures r.Ok? ==> Private(repo, r.value) && r.value !in old(repo).own && repo.commits[r.value] == Commit(tree, [parent])
      ensures AllServed(old(turns)) ==> r.Ok?
      ensures Calm(old(turns)) ==> repo.heads == old(repo).heads
    {
      var outcome := Await();
      if outcome.Refused? {
        return Err(outcome.error);
      }
      var c := |repo.commits|;
      ghost var before := repo;
      LogStep(first, log, Step.Draft(tree, parent));
      log := log + [Step.Draft(tree, parent)];
      repo := Created(repo, Commit(tree, [parent]));
      AppendKeeps(before, repo, Commit(tree, [parent]));
      QuietTransitive(old(repo), before, repo);
      r := if outcome.Served? then Ok(c) else Err(LossError(outcome.loss));
    }

    /** The update of a reference, which is never forced. */
    method UpdateRef(c: nat) returns (r: Result<(), PublishError>)
      requires Intact() && Private(repo, c)
      requires exists p | p in repo.heads :: repo.commits[c].parents == [p]
      modifies this
      ensures turns == After(old(turns), 1)
      ensures Continues(old(first), old(log))
      ensures Quiet(old(repo), repo) || (Replaced(old(repo), repo, c) && (r.Ok? || exists loss :: r == Err(LossError(loss))))
      ensures r.Ok? ==> Replaced(old(repo), repo, c)
      ensures AllServed(old(turns)) ==> r.Ok? || r == Err(GitHubApiError(422, rejection))
      ensures Calm(old(turns)) ==> (r.Ok? <==> old(repo).commits[c].parents == [Head(old(repo))])
    {
      var outcome := Await();
      if outcome.Refused? {
        return Err(outcome.error);
      }
      ghost var parent :| parent in old(repo).heads && old(repo).commits[c].parents == [parent];
      FastForwardIffUnmoved(repo, c, parent);
      if !FastForward(repo, c) {
        return Err(GitHubApiError(422, rejection));
      }
      UpdateLands(old(repo), repo, c, parent);
      LogStep(first, log, Update(c, true));
      log := log + [Update(c, true)];
      repo := Advanced(repo, c);
      r := if outcome.Served? then Ok(()) else Err(LossError(outcome.loss));
    }

    /** The blob at a path of the head: its content stands for its SHA. */
    method GetContents(path: string) returns (r: Result<Option<string>, PublishError>)
      requires Intact()
      modifies this
      ensures Quiet(old(repo), repo) && repo.own == old(repo).own
      ensures turns == After(old(turns), 1)
      ensures Continues(old(first), old(log))
      ensures r.Ok? ==> r.value == At(repo.commits[Head(repo)].tree, path)
      ensures AllServed(old(turns)) ==> r.Ok?
      ensures Calm(old(turns)) ==> repo == old(repo)
    {
      var outcome := Await();
      match outcome
      case Served => r := Ok(At(repo.commits[Head(repo)].tree, path));
      case Refused(error) => r := Err(error);
      case Lost(loss) => r := Err(LossError(loss));
    }

    /** The commit and the move of the branch to it are one step for everyone else. */
    method CommitHere(entries: seq<Entry>)
      requires Intact()
      modifies this
      ensures turns == old(turns) && repo == OnHead(old(repo), entries)
      ensures Continues(old(first), old(log))
    {
      CommitOnHead(repo, repo, entries);
      LogOnHead(first, log, entries);
      log := log + OnHeadSteps(repo, entries);
      repo := OnHead(repo, entries);
    }

    /** Commits one file on the head, if what it replaces there is the blob the client names. */
    method PutContents(entry: Entry, replaced: Option<string>) returns (r: Result<nat, PublishError>)
      requires Intact()
      modifies this
      ensures turns == After(old(turns), 1)
      ensures Continues(old(first), old(log))
      ensures (r.Err? && Quiet(old(repo), repo)) ||
        (Published(old(repo), repo, [entry]) && (r == Ok(Head(repo)) || exists loss :: r == Err(LossError(loss))))
      ensures r.Ok? ==> At(repo.commits[repo.heads[|repo.heads| - 2]].tree, entry.path) == replaced
      ensures Calm(old(turns)) ==> (r.Ok? <==> At(old(repo).commits[Head(old(repo))].tree, entry.path) == replaced)
    {
      var outcome := Await();
      if outcome.Refused? {
        return Err(outcome.error);
      }
      var parent := Head(repo);
      var tree := repo.commits[parent].tree;
      if At(tree, entry.path) != replaced {
        return Err(GitHubApiError(if replaced.None? then 422 else 409, rejection));
      }
      var c := |repo.commits|;
      CommitOnHead(old(repo), repo, [entry]);
      ghost var steps := log;
      CommitHere([entry]);
      LogGrows(old(log), steps, log);
      r := if outcome.Served? then Ok(c) else Err(LossError(outcome.loss));
    }
  }

  function At(tree: Tree, path: string): Option<string> {
    if path in tree then Some(tree[path]) else None
  }

  /** The branch now points at `c`, which replaced its own parent. */
  ghost predicate Replaced(r0: Repo, r1: Repo, c: nat) {
    && Valid(r0) && Valid(r1)
    && r0.commits <= r1.commits && r0.heads <= r1.heads && r0.own == r1.own
    && (forall x | Private(r0, x) && x != c :: Private(r1, x))
    && |r0.heads| < |r1.heads| && Head(r1) == c
    && r1.commits[c].parents == [r1.heads[|r1.heads| - 2]]
    && forall i | |r0.heads| <= i < |r1.heads| - 1 :: r1.heads[i] !in r1.own
  }

  lemma UpdateLands(r0: Repo, r1: Repo, c: nat, parent: nat)
    requires Quiet(r0, r1) && r1.own == r0.own && Private(r1, c)
    requires parent in r1.heads && r1.commits[c].parents == [parent] && FastForward(r1, c)
    ensures parent == Head(r1) && Replaced(r0, Advanced(r1, c), c)
  {
    FastForwardIffUnmoved(r1, c, parent);
    AdvanceKeeps(r1, c);
  }

  /** A commit made and landed at once, on the head. */
  function OnHead(repo: Repo, entries: seq<Entry>): Repo
    requires Valid(repo)
  {
    Advanced(Created(repo, Commit(Overlay(repo.commits[Head(repo)].tree, entries), [Head(repo)])), |repo.commits|)
  }

  lemma LogStep(first: Repo, log: seq<Step>, step: Step)
    requires first.heads != []
    ensures RunOf(first, log + [step]) == Do(RunOf(first, log), step)
  {
    RunConcat(first, log, [step]);
    assert [step][1..] == [];
    assert RunOf(Do(RunOf(first, log), step), []) == Do(RunOf(first, log), step);
  }

  lemma LogGrows(a: seq<Step>, b: seq<Step>, c: seq<Step>)
    requires a <= b <= c
    ensures a <= c
  {
  }

  lemma LogMoves(first: Repo, log: seq<Step>, moves: seq<Move>)
    requires first.heads != []
    ensures RunOf(first, log + OthersOf(moves)) == Moved(RunOf(first, log), moves)
  {
    RunConcat(first, log, OthersOf(moves));
    MovedIsRun(RunOf(first, log), moves);
  }

  /** The steps that `OnHead` takes together. */
  function OnHeadSteps(repo: Repo, entries: seq<Entry>): seq<Step>
    requires Valid(repo)
  {
    [Step.Draft(Overlay(repo.commits[Head(repo)].tree, entries), Head(repo)), Update(|repo.commits|, true)]
  }

  lemma LogOnHead(first: Repo, log: seq<Step>, entries: seq<Entry>)
    requires first.heads != [] && Valid(RunOf(first, log))
    ensures RunOf(first, log + OnHeadSteps(RunOf(first, log), entries)) == OnHead(RunOf(first, log), entries)
  {
    var repo := RunOf(first, log);
    var steps := OnHeadSteps(repo, entries);
    var commit := Commit(Overlay(repo.commits[Head(repo)].tree, entries), [Head(repo)]);
    AppendKeeps(repo, Created(repo, commit), commit);
    FastForwardIffUnmoved(Created(repo, commit), |repo.commits|, Head(repo));
    LogStep(first, log, steps[0]);
    LogStep(first, log + [steps[0]], steps[1]);
    assert log + [steps[0]] + [steps[1]] == log + steps;
  }

  lemma CommitOnHead(r0: Repo, r1: Repo, entries: seq<Entry>)
    requires Quiet(r0, r1)
    ensures var r2 := OnHead(r1, entries);
      Published(r0, r2, entries) && Head(r2) == |r1.commits| && r2.heads[|r2.heads| - 2] == Head(r1) && r1.commits <= r2.commits
  {
    var parent, c := Head(r1), |r1.commits|;
    var commit := Commit(Overlay(r1.commits[parent].tree, entries), [parent]);
    var created := Created(r1, commit);
    AppendKeeps(r1, created, commit);
    QuietTransitive(r0, r1, created);
    FastForwardIffUnmoved(created, c, parent);
    AdvanceKeeps(created, c);
    LandedAfter(r0, created, Advanced(created, c), c);
  }

  /** One commit of the publisher's landed, on the head it replaced, and it changes exactly the
      files of these entries. */
  ghost predicate Published(r0: Repo, r1: Repo, entries: seq<Entry>) {
    && Landed(r0, r1)
    && var parent := r1.heads[|r1.heads| - 2];
       r1.commits[Head(r1)] == Commit(Overlay(r1.commits[parent].tree, entries), [parent])
  }

  /** What readers of the branch see after a commit has landed: the last report under each path, every
      other file as on the head before, and all of the earlier history. */
  lemma PublishedFiles(r0: Repo, r1: Repo, entries: seq<Entry>, path: string)
    requires Published(r0, r1, entries)
    ensures var (here, there) := (r1.commits[Head(r1)].tree, r1.commits[r1.heads[|r1.heads| - 2]].tree);
      && (forall i | 0 <= i < |entries| && entries[i].path == path && (forall j | i < j < |entries| :: entries[j].path != path) ::
            At(here, path) == Some(entries[i].content))
      && ((forall i | 0 <= i < |entries| :: entries[i].path != path) ==> At(here, path) == At(there, path))
    ensures forall h | h in r0.heads :: Ancestor(r1.commits, h, Head(r1)) && h != Head(r1)
  {
    var before := r1.commits[r1.heads[|r1.heads| - 2]].tree;
    if forall i | 0 <= i < |entries| :: entries[i].path != path {
      OverlayKeeps(before, entries, path);
    }
    forall i | 0 <= i < |entries| && entries[i].path == path && (forall j | i < j < |entries| :: entries[j].path != path)
      ensures At(Overlay(before, entries), path) == Some(entries[i].content)
    {
      OverlayHolds(before, entries, i);
    }
    NothingLost(r0, r1);
  }

  /** Over the whole life of a remote, whatever is published and pushed: every commit that was on the
      branch after any of its steps still is. */
  lemma NothingEverLost(remote: Remote, i: nat)
    requires remote.Intact() && i <= |remote.log|
    ensures forall h | h in RunOf(remote.first, remote.log[..i]).heads :: Ancestor(remote.repo.commits, h, Head(remote.repo))
  {
    RunIsSafe(remote.first, remote.log, i, |remote.log|);
    assert remote.log[..|remote.log|] == remote.log;
  }

  // ---- Publishing ----

  /** What a call may do for these reports: be refused for a path without a request, leave nothing
      on the branch, or land the one commit of these reports. */
  ghost predicate Outcomes(cfg: Config, reports: seq<Report>, r0: Repo, r1: Repo, r: Result<Batch, PublishError>)
    requires Valid(r0) && Valid(r1)
  {
    match EntriesOf(cfg, reports)
    case Err(error) => r == Err(error) && r1 == r0
    case Ok(entries) =>
      (r.Err? && Quiet(r0, r1)) ||
      (Published(r0, r1, entries) &&
        (r == Ok(BatchOf(cfg, entries, Some(Head(r1)))) || exists loss :: r == Err(LossError(loss))))
  }

  /** `publish`: one report, by the contents API. */
  method Publish(cfg: Config, report: Report, remote: Remote) returns (r: Result<Artifact, PublishError>)
    requires remote.Intact()
    modifies remote
    ensures remote.Continues(old(remote.first), old(remote.log))
    ensures match EntryOf(cfg, report)
      case Err(error) => r == Err(error) && remote.repo == old(remote.repo) && remote.turns == old(remote.turns)
      case Ok(entry) =>
        (r.Err? && Quiet(old(remote.repo), remote.repo)) ||
        (Published(old(remote.repo), remote.repo, [entry]) &&
          (r == Ok(Artifact(Some(Head(remote.repo)), TargetUrl(cfg, entry.path))) || exists loss :: r == Err(LossError(loss))))
    ensures EntryOf(cfg, report).Ok? && Calm(old(remote.turns)) ==> r.Ok?
  {
    var joined := JoinPath(cfg, report.relativePath);
    if joined.Err? {
      return Err(joined.error);
    }
    var path := joined.value;
    var existing := remote.GetContents(path);
    if existing.Err? {
      return Err(existing.error);
    }
    ghost var between := remote.repo;
    var put := remote.PutContents(Entry(path, report.markdown), existing.value);
    if Quiet(between, remote.repo) {
      QuietTransitive(old(remote.repo), between, remote.repo);
    } else {
      QuietThenLanded(old(remote.repo), between, remote.repo);
    }
    r := if put.Err? then Err(put.error) else Ok(Artifact(Some(put.value), TargetUrl(cfg, path)));
  }

  /** The tree entries and the artifacts, as yet without a commit; no request is made. */
  method Gather(cfg: Config, reports: seq<Report>) returns (r: Result<(seq<Entry>, seq<Artifact>), PublishError>)
    ensures match EntriesOf(cfg, reports)
      case Err(error) => r == Err(error)
      case Ok(entries) => r == Ok((entries, BatchOf(cfg, entries, None).artifacts))
  {
    var entries: seq<Entry> := [];
    var artifacts: seq<Artifact> := [];
    assert reports[0..] == reports;
    ThenEmpty(EntriesOf(cfg, reports));
    for i := 0 to |reports|
      invariant Then(entries, EntriesOf(cfg, reports[i..])) == EntriesOf(cfg, reports)
      invariant artifacts == BatchOf(cfg, entries, None).artifacts
    {
      EntriesStep(cfg, reports, i, entries);
      var joined := JoinPath(cfg, reports[i].relativePath);
      if joined.Err? {
        return Err(joined.error);
      }
      entries := entries + [Entry(joined.value, reports[i].markdown)];
      artifacts := artifacts + [Artifact(None, TargetUrl(cfg, joined.value))];
    }
    assert entries + [] == entries;
    r := Ok((entries, artifacts));
  }

  /** Writes the commit into each artifact. */
  method Stamp(cfg: Config, entries: seq<Entry>, unstamped: seq<Artifact>, c: nat) returns (artifacts: seq<Artifact>)
    requires unstamped == BatchOf(cfg, entries, None).artifacts
    ensures artifacts == BatchOf(cfg, entries, Some(c)).artifacts
  {
    artifacts := unstamped;
    for i := 0 to |artifacts|
      invariant |artifacts| == |entries|
      invariant forall j | 0 <= j < |artifacts| ::
        artifacts[j] == Artifact(if j < i then Some(c) else None, TargetUrl(cfg, entries[j].path))
    {
      artifacts := artifacts[i := artifacts[i].(commitSha := Some(c))];
    }
  }

  /** `publish_many_atomic`: either nothing of it is on the branch, or one commit with all reports
      is. Only if an answer was lost may that commit be there although an error is returned. */
  method PublishManyAtomic(cfg: Config, reports: seq<Report>, remote: Remote) returns (r: Result<Batch, PublishError>)
    requires remote.Intact()
    modifies remote
    ensures remote.Continues(old(remote.first), old(remote.log))
    ensures Valid(remote.repo) && Outcomes(cfg, reports, old(remote.repo), remote.repo, r)
    ensures EntriesOf(cfg, reports).Err? ==> remote.turns == old(remote.turns)
    ensures EntriesOf(cfg, reports).Ok? && AllServed(old(remote.turns)) ==>
      remote.turns == After(old(remote.turns), 5) && (r.Ok? || r == Err(GitHubApiError(422, remote.rejection)))
    ensures EntriesOf(cfg, reports).Ok? && Calm(old(remote.turns)) ==> r.Ok?
  {
    var gathered :- Gather(cfg, reports);
    var (entries, artifacts) := gathered;
    var c :- Land(entries, remote);
    artifacts := Stamp(cfg, entries, artifacts, c);
    r := Ok(Batch(artifacts, Some(c)));
  }

  /** `head_commit_and_tree`: two requests, and the head may move between them. */
  method HeadCommitAndTree(remote: Remote) returns (r: Result<(nat, Tree), PublishError>)
    requires remote.Intact()
    modifies remote
    ensures remote.Continues(old(remote.first), old(remote.log))
    ensures Quiet(old(remote.repo), remote.repo)
    ensures r.Ok? ==> r.value.0 in remote.repo.heads && r.value.1 == remote.repo.commits[r.value.0].tree
    ensures AllServed(old(remote.turns)) ==> r.Ok? && remote.turns == After(old(remote.turns), 2)
    ensures Calm(old(remote.turns)) ==> r.Ok? && remote.repo == old(remote.repo) && r.value.0 == Head(remote.repo)
  {
    var head :- remote.GetHead();
    ghost var between := remote.repo;
    assert head in between.heads;
    var tree := remote.GetTree(head);
    QuietTransitive(old(remote.repo), between, remote.repo);
    r := if tree.Err? then Err(tree.error) else Ok((head, tree.value));
  }

  /** The tree with all the reports, on the head that was read. */
  method HeadAndNewTree(entries: seq<Entry>, remote: Remote) returns (r: Result<(nat, Tree), PublishError>)
    requires remote.Intact()
    modifies remote
    ensures remote.Continues(old(remote.first), old(remote.log))
    ensures Quiet(old(remote.repo), remote.repo)
    ensures r.Ok? ==> r.value.0 in remote.repo.heads && r.value.1 == Overlay(remote.repo.commits[r.value.0].tree, entries)
    ensures AllServed(old(remote.turns)) ==> r.Ok? && remote.turns == After(old(remote.turns), 3)
    ensures Calm(old(remote.turns)) ==> r.Ok? && remote.repo == old(remote.repo) && r.value.0 == Head(remote.repo)
  {
    var read :- HeadCommitAndTree(remote);
    var (head, base) := read;
    ghost var (between, log) := (remote.repo, remote.log);
    AfterAfter(old(remote.turns), 2, 1);
    var tree := remote.CreateTree(base, entries);
    LogGrows(old(remote.log), log, remote.log);
    QuietKeeps(old(remote.repo), between, remote.repo, head);
    r := if tree.Err? then Err(tree.error) else Ok((head, tree.value));
  }

  /** A commit with all the reports, on the head that was read. */
  method Draft(entries: seq<Entry>, remote: Remote) returns (r: Result<nat, PublishError>)
    requires remote.Intact()
    modifies remote
    ensures remote.Continues(old(remote.first), old(remote.log))
    ensures DraftOutcome(old(remote.repo), remote.repo, r, entries)
    ensures AllServed(old(remote.turns)) ==> r.Ok? && remote.turns == After(old(remote.turns), 4)
    ensures Calm(old(remote.turns)) ==> r.Ok? && remote.repo.commits[r.value].parents == [Head(remote.repo)]
  {
    var read :- HeadAndNewTree(entries, remote);
    var (head, tree) := read;
    ghost var (between, log) := (remote.repo, remote.log);
    AfterAfter(old(remote.turns), 3, 1);
    r := remote.CreateCommit(tree, head);
    LogGrows(old(remote.log), log, remote.log);
    DraftDone(old(remote.repo), between, remote.repo, r, head, entries);
  }

  lemma QuietKeeps(r0: Repo, r1: Repo, r2: Repo, head: nat)
    requires Quiet(r0, r1) && Quiet(r1, r2) && head in r1.heads
    ensures Quiet(r0, r2) && head in r2.heads && r2.commits[head] == r1.commits[head]
  {
    QuietTransitive(r0, r1, r2);
  }

  /** Nothing landed, and the commit is there for nobody to see. */
  ghost predicate DraftOutcome(r0: Repo, r1: Repo, r: Result<nat, PublishError>, entries: seq<Entry>) {
    Quiet(r0, r1) && (r.Ok? ==> Private(r1, r.value) && r.value !in r0.own && Drafted(r1, r.value, entries))
  }

  lemma DraftDone(r0: Repo, r1: Repo, r2: Repo, r: Result<nat, PublishError>, head: nat, entries: seq<Entry>)
    requires Quiet(r0, r1) && Quiet(r1, r2) && head in r1.heads
    requires r.Ok? ==> Private(r2, r.value) && r.value !in r1.own
    requires r.Ok? ==> r2.commits[r.value] == Commit(Overlay(r1.commits[head].tree, entries), [head])
    ensures DraftOutcome(r0, r2, r, entries)
  {
    QuietKeeps(r0, r1, r2, head);
  }

  /** A commit of these entries on a former head. */
  ghost predicate Drafted(repo: Repo, c: nat, entries: seq<Entry>)
    requires Valid(repo)
  {
    c < |repo.commits| && exists p | p in repo.heads :: repo.commits[c] == Commit(Overlay(repo.commits[p].tree, entries), [p])
  }

  /** The requests of one attempt. */
  method Land(entries: seq<Entry>, remote: Remote) returns (r: Result<nat, PublishError>)
    requires remote.Intact()
    modifies remote
    ensures remote.Continues(old(remote.first), old(remote.log))
    ensures (r.Err? && Quiet(old(remote.repo), remote.repo)) ||
      (Published(old(remote.repo), remote.repo, entries) && (r == Ok(Head(remote.repo)) || exists loss :: r == Err(LossError(loss))))
    ensures AllServed(old(remote.turns)) ==>
      remote.turns == After(old(remote.turns), 5) && (r.Ok? || r == Err(GitHubApiError(422, remote.rejection)))
    ensures Calm(old(remote.turns)) ==> r.Ok?
  {
    r := Draft(entries, remote);
    if r.Ok? {
      ghost var (before, log) := (remote.repo, remote.log);
      ghost var parent :| parent in before.heads && before.commits[r.value] == Commit(Overlay(before.commits[parent].tree, entries), [parent]);
      AfterAfter(old(remote.turns), 4, 1);
      var updated := remote.UpdateRef(r.value);
      LogGrows(old(remote.log), log, remote.log);
      UpdateOutcome(old(remote.repo), before, remote.repo, r.value, parent, entries);
      if updated.Err? {
        return Err(updated.error);
      }
    }
  }

  lemma UpdateOutcome(r0: Repo, r1: Repo, r2: Repo, c: nat, parent: nat, entries: seq<Entry>)
    requires Quiet(r0, r1) && Private(r1, c) && c !in r0.own && (Quiet(r1, r2) || Replaced(r1, r2, c))
    requires parent in r1.heads && r1.commits[c] == Commit(Overlay(r1.commits[parent].tree, entries), [parent])
    ensures Quiet(r1, r2) ==> Quiet(r0, r2)
    ensures Replaced(r1, r2, c) ==> Published(r0, r2, entries) && Head(r2) == c
  {
    if Quiet(r1, r2) {
      QuietTransitive(r0, r1, r2);
    }
    if Replaced(r1, r2, c) {
      LandedAfter(r0, r1, r2, c);
      assert r2.commits[c].parents[0] == r2.heads[|r2.heads| - 2] == parent;
    }
  }

  lemma LandedAfter(r0: Repo, r1: Repo, r2: Repo, c: nat)
    requires Quiet(r0, r1) && Replaced(r1, r2, c) && Private(r1, c) && c !in r0.own
    ensures Landed(r0, r2) && r2.commits[c] == r1.commits[c]
  {
    forall i | |r0.heads| <= i < |r2.heads| - 1 ensures r2.heads[i] !in r2.own {
      assert i < |r1.heads| ==> r2.heads[i] == r1.heads[i];
    }
  }

  const MAX_ATTEMPTS := 2

  /** An attempt that left nothing behind may be followed by another. */
  lemma SecondAttempt(cfg: Config, reports: seq<Report>, r0: Repo, r1: Repo, r2: Repo, r: Result<Batch, PublishError>)
    requires Quiet(r0, r1) && Valid(r2) && Outcomes(cfg, reports, r1, r2, r) && EntriesOf(cfg, reports).Ok?
    ensures Outcomes(cfg, reports, r0, r2, r)
  {
    if Quiet(r1, r2) {
      QuietTransitive(r0, r1, r2);
    } else {
      QuietThenLanded(r0, r1, r2);
    }
  }

  lemma AfterAfter(turns: seq<Turn>, m: nat, n: nat)
    ensures After(After(turns, m), n) == After(turns, m + n)
    ensures AllServed(turns) ==> AllServed(After(turns, m))
    ensures Calm(turns) ==> Calm(After(turns, m)) && AllServed(turns)
  {
  }

  /** The others push during the first attempt at most, and a refused update says so. */
  predicate CalmAgain(turns: seq<Turn>, rejection: string) {
    AllServed(turns) && Calm(After(turns, 5)) && IsNonFastForward(rejection)
  }

  lemma {:induction false} PathErrorIsFinal(cfg: Config, reports: seq<Report>)
    ensures EntriesOf(cfg, reports).Err? ==> EntriesOf(cfg, reports).error.InvalidPath?
  {
    if reports != [] {
      PathErrorIsFinal(cfg, reports[1..]);
    }
  }

  /** The retry loop of `publish_many`: at most two attempts, and it never ends without an answer. */
  method PublishBatch(cfg: Config, reports: seq<Report>, remote: Remote) returns (r: Result<Batch, PublishError>)
    requires remote.Intact()
    modifies remote
    ensures remote.Continues(old(remote.first), old(remote.log))
    ensures Valid(remote.repo) && Outcomes(cfg, reports, old(remote.repo), remote.repo, r)
    ensures EntriesOf(cfg, reports).Err? ==> remote.turns == old(remote.turns)
    ensures EntriesOf(cfg, reports).Ok? && Calm(old(remote.turns)) ==> r.Ok?
    ensures EntriesOf(cfg, reports).Ok? && AllServed(old(remote.turns)) ==>
      || (remote.turns == After(old(remote.turns), 5) && (r.Ok? || !IsNonFastForward(remote.rejection)))
      || (remote.turns == After(old(remote.turns), 10) && IsNonFastForward(remote.rejection))
    ensures EntriesOf(cfg, reports).Ok? && CalmAgain(old(remote.turns), remote.rejection) ==> r.Ok?
  {
    for attempt := 1 to MAX_ATTEMPTS + 1
      invariant attempt <= MAX_ATTEMPTS
      invariant Quiet(old(remote.repo), remote.repo) && remote.Continues(old(remote.first), old(remote.log))
      invariant attempt == 1 ==> remote.turns == old(remote.turns) && remote.repo == old(remote.repo)
      invariant attempt > 1 && AllServed(old(remote.turns)) ==>
        remote.turns == After(old(remote.turns), 5) && IsNonFastForward(remote.rejection)
      invariant attempt > 1 ==> EntriesOf(cfg, reports).Ok? && !Calm(old(remote.turns))
    {
      ghost var before, turns := remote.repo, remote.turns;
      AfterAfter(old(remote.turns), 5, 5);
      r := PublishManyAtomic(cfg, reports, remote);
      PathErrorIsFinal(cfg, reports);
      if EntriesOf(cfg, reports).Ok? {
        SecondAttempt(cfg, reports, old(remote.repo), before, remote.repo, r);
      }
      if r.Err? && IsBranchConcurrentlyUpdated(r.error) && attempt < MAX_ATTEMPTS {
        continue;
      }
      return;
    }
    assert false;
  }

  lemma SingleEntry(cfg: Config, report: Report)
    ensures EntriesOf(cfg, [report]) ==
      var entry := EntryOf(cfg, report); if entry.Err? then Err(entry.error) else Ok([entry.value])
    ensures forall entry, c :: BatchOf(cfg, [entry], c) == Batch([Artifact(c, TargetUrl(cfg, entry.path))], c)
  {
    assert EntriesOf(cfg, [report][1..]) == Ok([]);
    var entry := EntryOf(cfg, report);
    assert entry.Ok? ==> [entry.value] + [] == [entry.value];
  }

  /** `publish_many`. */
  method PublishMany(cfg: Config, reports: seq<Report>, remote: Remote) returns (r: Result<Batch, PublishError>)
    requires remote.Intact()
    modifies remote
    ensures remote.Continues(old(remote.first), old(remote.log))
    ensures Valid(remote.repo)
    ensures reports == [] ==> r == Ok(Batch([], None)) && remote.repo == old(remote.repo)
    ensures reports != [] ==> Outcomes(cfg, reports, old(remote.repo), remote.repo, r)
    ensures reports == [] || EntriesOf(cfg, reports).Err? ==> remote.turns == old(remote.turns)
    ensures EntriesOf(cfg, reports).Ok? && Calm(old(remote.turns)) ==> r.Ok?
    ensures |reports| > 1 && EntriesOf(cfg, reports).Ok? && CalmAgain(old(remote.turns), remote.rejection) ==> r.Ok?
  {
    if reports == [] {
      return Ok(Batch([], None));
    }
    if |reports| == 1 {
      var artifact := Publish(cfg, reports[0], remote);
      SingleEntry(cfg, reports[0]);
      assert reports == [reports[0]];
      r := if artifact.Err? then Err(artifact.error) else Ok(Batch([artifact.value], artifact.value.commitSha));
      return;
    }
    r := PublishBatch(cfg, reports, remote);
  }
}
