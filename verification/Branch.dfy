/** The remote branch: what GitHub promises about commits and references, and who else may push. */
module Branch {
  type Tree = map<string, string>

  datatype Commit = Commit(tree: Tree, parents: seq<nat>)

  /** A commit is known by its place among all commits; `heads` is everything the branch ever
      pointed at, the present head last; `own` are the commits the publisher made. */
  datatype Repo = Repo(commits: seq<Commit>, heads: seq<nat>, own: set<nat>)

  function Head(repo: Repo): nat
    requires repo.heads != []
  {
    repo.heads[|repo.heads| - 1]
  }

  predicate Ancestor(commits: seq<Commit>, a: nat, b: nat)
    decreases b
  {
    a == b || (b < |commits| && exists p | p in commits[b].parents && p < b :: Ancestor(commits, a, p))
  }

  lemma {:induction false} AncestorOrder(commits: seq<Commit>, a: nat, b: nat)
    requires Ancestor(commits, a, b)
    ensures a <= b
    decreases b
  {
    if a != b {
      var p :| p in commits[b].parents && p < b && Ancestor(commits, a, p);
      AncestorOrder(commits, a, p);
    }
  }

  lemma {:induction false} AncestorTransitive(commits: seq<Commit>, a: nat, b: nat, c: nat)
    requires Ancestor(commits, a, b) && Ancestor(commits, b, c)
    ensures Ancestor(commits, a, c)
    decreases c
  {
    if b != c {
      var p :| p in commits[c].parents && p < c && Ancestor(commits, b, p);
      AncestorTransitive(commits, a, b, p);
    }
  }

  /** Commits are never changed, so what is an ancestor stays one. */
  lemma {:induction false} AncestorStays(commits: seq<Commit>, more: seq<Commit>, a: nat, b: nat)
    requires b < |commits| && commits <= more
    ensures Ancestor(commits, a, b) <==> Ancestor(more, a, b)
    decreases b
  {
    forall p | p in commits[b].parents && p < b ensures Ancestor(commits, a, p) <==> Ancestor(more, a, p) {
      AncestorStays(commits, more, a, p);
    }
  }

  /** The publisher's commits that the branch never pointed at. */
  predicate Private(repo: Repo, c: nat) {
    c in repo.own && c !in repo.heads
  }

  /** Parents come first, and nobody builds on a private commit. */
  ghost predicate Grounded(repo: Repo) {
    forall b, p | 0 <= b < |repo.commits| && p in repo.commits[b].parents :: p < b && !Private(repo, p)
  }

  /** Each head descends from all heads before it. */
  ghost predicate Linear(repo: Repo) {
    forall i, j | 0 <= i < j < |repo.heads| ::
      repo.heads[i] < repo.heads[j] && Ancestor(repo.commits, repo.heads[i], repo.heads[j])
  }

  ghost predicate Valid(repo: Repo) {
    && repo.heads != []
    && (forall i | 0 <= i < |repo.heads| :: repo.heads[i] < |repo.commits|)
    && (forall c | c in repo.own :: c < |repo.commits|)
    && Grounded(repo)
    && Linear(repo)
  }

  /** From `r0` to `r1` nothing is taken back, and no commit once left behind is taken up. */
  ghost predicate Evolves(r0: Repo, r1: Repo) {
    && Valid(r0) && Valid(r1)
    && r0.commits <= r1.commits && r0.heads <= r1.heads && r0.own <= r1.own
    && (forall c | c in r1.own && c !in r0.own :: c >= |r0.commits|)
    && (forall c | Private(r0, c) :: Private(r1, c))
  }

  /** No commit of the publisher's reached the branch. */
  ghost predicate Quiet(r0: Repo, r1: Repo) {
    && Evolves(r0, r1)
    && forall i | |r0.heads| <= i < |r1.heads| :: r1.heads[i] !in r1.own
  }

  /** Exactly one commit of the publisher's reached the branch, and it is the head. */
  ghost predicate Landed(r0: Repo, r1: Repo) {
    && Evolves(r0, r1)
    && |r0.heads| < |r1.heads|
    && Head(r1) in r1.own && Head(r1) !in r0.own
    && forall i | |r0.heads| <= i < |r1.heads| - 1 :: r1.heads[i] !in r1.own
  }

  lemma QuietTransitive(r0: Repo, r1: Repo, r2: Repo)
    requires Quiet(r0, r1) && Quiet(r1, r2)
    ensures Quiet(r0, r2)
  {
    EarlierHeads(r0, r1, r2);
  }

  lemma QuietThenLanded(r0: Repo, r1: Repo, r2: Repo)
    requires Quiet(r0, r1) && Landed(r1, r2)
    ensures Landed(r0, r2)
  {
    EarlierHeads(r0, r1, r2);
  }

  lemma EarlierHeads(r0: Repo, r1: Repo, r2: Repo)
    requires Quiet(r0, r1) && Evolves(r1, r2)
    ensures forall i | |r0.heads| <= i < |r1.heads| :: r2.heads[i] !in r2.own
  {
    forall i | |r0.heads| <= i < |r1.heads| ensures r2.heads[i] !in r2.own {
      assert r2.heads[i] == r1.heads[i] < |r1.commits|;
    }
  }

  /** No lost updates: whatever was ever on the branch is still part of it. */
  lemma NothingLost(r0: Repo, r1: Repo)
    requires Evolves(r0, r1)
    ensures forall i | 0 <= i < |r0.heads| :: Ancestor(r1.commits, r0.heads[i], Head(r1))
  {
    forall i | 0 <= i < |r0.heads| ensures Ancestor(r1.commits, r0.heads[i], Head(r1)) {
      assert r0.heads[i] == r1.heads[i];
    }
  }

  /** A private commit is part of nothing on the branch, now or ever. */
  lemma {:induction false} PrivateUnseen(repo: Repo, c: nat, b: nat)
    requires Valid(repo) && Private(repo, c) && b != c
    ensures !Ancestor(repo.commits, c, b)
    decreases b
  {
    if Ancestor(repo.commits, c, b) {
      var p :| p in repo.commits[b].parents && p < b && Ancestor(repo.commits, c, p);
      if p != c {
        PrivateUnseen(repo, c, p);
      }
    }
  }

  // ---- Steps ----

  function Created(repo: Repo, commit: Commit): Repo {
    repo.(commits := repo.commits + [commit], own := repo.own + {|repo.commits|})
  }

  function Advanced(repo: Repo, c: nat): Repo {
    repo.(heads := repo.heads + [c])
  }

  /** What GitHub checks of an update with `force: false`. */
  predicate FastForward(repo: Repo, c: nat)
    requires repo.heads != []
  {
    c < |repo.commits| && Ancestor(repo.commits, Head(repo), c)
  }

  lemma AppendGrounded(r0: Repo, r1: Repo, commit: Commit)
    requires Valid(r0) && r1.commits == r0.commits + [commit] && r1.heads == r0.heads
    requires r1.own == r0.own || r1.own == r0.own + {|r0.commits|}
    requires forall p | p in commit.parents :: p < |r0.commits| && !Private(r0, p)
    ensures Grounded(r1)
  {
    forall b, p | 0 <= b < |r1.commits| && p in r1.commits[b].parents ensures p < b && !Private(r1, p) {
      if b < |r0.commits| {
        assert p in r0.commits[b].parents && !Private(r0, p);
      } else {
        assert p in commit.parents;
      }
    }
  }

  lemma AppendKeeps(r0: Repo, r1: Repo, commit: Commit)
    requires Valid(r0) && r1.commits == r0.commits + [commit] && r1.heads == r0.heads
    requires r1.own == r0.own || r1.own == r0.own + {|r0.commits|}
    requires forall p | p in commit.parents :: p < |r0.commits| && !Private(r0, p)
    ensures Quiet(r0, r1)
  {
    AppendGrounded(r0, r1, commit);
    forall i, j | 0 <= i < j < |r1.heads| ensures Ancestor(r1.commits, r1.heads[i], r1.heads[j]) {
      AncestorStays(r0.commits, r1.commits, r0.heads[i], r0.heads[j]);
    }
  }

  lemma AdvanceKeeps(r0: Repo, c: nat)
    requires Valid(r0) && FastForward(r0, c) && c != Head(r0)
    ensures Valid(Advanced(r0, c))
    ensures c !in r0.heads
    ensures c !in r0.own ==> Quiet(r0, Advanced(r0, c))
  {
    AncestorOrder(r0.commits, Head(r0), c);
    AdvanceGrounded(r0, c);
    forall i | 0 <= i < |r0.heads| ensures r0.heads[i] < c && Ancestor(r0.commits, r0.heads[i], c) {
      AncestorTransitive(r0.commits, r0.heads[i], Head(r0), c);
    }
  }

  lemma AdvanceGrounded(r0: Repo, c: nat)
    requires Grounded(r0)
    ensures Grounded(Advanced(r0, c))
  {
    var r1 := Advanced(r0, c);
    forall b, p | 0 <= b < |r1.commits| && p in r1.commits[b].parents ensures p < b && !Private(r1, p) {
      assert !Private(r0, p);
    }
  }

  /** A commit built on a former head can be pushed exactly when that head still is the head. */
  lemma FastForwardIffUnmoved(repo: Repo, c: nat, parent: nat)
    requires Valid(repo) && Private(repo, c) && parent in repo.heads
    requires repo.commits[c].parents == [parent]
    ensures FastForward(repo, c) <==> Head(repo) == parent
  {
    assert parent in repo.commits[c].parents;
    assert Ancestor(repo.commits, parent, c) by {
      assert !Private(repo, parent) && parent < c && Ancestor(repo.commits, parent, parent);
    }
    if FastForward(repo, c) {
      assert Head(repo) in repo.heads;
      assert Ancestor(repo.commits, Head(repo), parent);
      AncestorOrder(repo.commits, Head(repo), parent);
      var i :| 0 <= i < |repo.heads| && repo.heads[i] == parent;
      assert i == |repo.heads| - 1;
    }
  }

  // ---- Other pushers ----

  /** Others create commits and push; they know nothing of private commits. */
  datatype Move = Create(commit: Commit) | Push(to: nat)

  function Move1(repo: Repo, move: Move): Repo
    requires repo.heads != []
  {
    match move
    case Create(commit) =>
      if forall p | p in commit.parents :: p < |repo.commits| && !Private(repo, p)
      then repo.(commits := repo.commits + [commit]) else repo
    case Push(to) =>
      if FastForward(repo, to) && to != Head(repo) && to !in repo.own then Advanced(repo, to) else repo
  }

  function Moved(repo: Repo, moves: seq<Move>): (r: Repo)
    requires repo.heads != []
    ensures r.heads != []
    decreases |moves|
  {
    if moves == [] then repo else Moved(Move1(repo, moves[0]), moves[1..])
  }

  lemma Move1Quiet(repo: Repo, move: Move)
    requires Valid(repo)
    ensures Quiet(repo, Move1(repo, move)) && Move1(repo, move).own == repo.own
  {
    var next := Move1(repo, move);
    match move
    case Create(commit) => if next != repo { AppendKeeps(repo, next, commit); }
    case Push(to) => if next != repo { AdvanceKeeps(repo, to); }
  }

  lemma {:induction false} MovedQuiet(repo: Repo, moves: seq<Move>)
    requires Valid(repo)
    ensures Quiet(repo, Moved(repo, moves)) && Moved(repo, moves).own == repo.own
    decreases |moves|
  {
    if moves != [] {
      var next := Move1(repo, moves[0]);
      Move1Quiet(repo, moves[0]);
      MovedQuiet(next, moves[1..]);
      QuietTransitive(repo, next, Moved(repo, moves));
    }
  }

  // ---- Runs ----

  /** One step of anyone: others move, the publisher makes a commit on a former head, or asks for an
      update, which GitHub may refuse whatever the branch looks like. */
  datatype Step = Others(move: Move) | Draft(tree: Tree, parent: nat) | Update(c: nat, granted: bool)

  function Do(repo: Repo, step: Step): (r: Repo)
    requires repo.heads != []
    ensures r.heads != []
  {
    match step
    case Others(move) => Move1(repo, move)
    case Draft(tree, parent) => if parent in repo.heads then Created(repo, Commit(tree, [parent])) else repo
    case Update(c, _) => if Lands(repo, step, c) then Advanced(repo, c) else repo
  }

  /** The step moves the branch to the publisher's commit `c`. */
  predicate Lands(repo: Repo, step: Step, c: nat)
    requires repo.heads != []
  {
    step == Update(c, true) && c in repo.own && c != Head(repo) && FastForward(repo, c)
  }

  function RunOf(repo: Repo, steps: seq<Step>): (r: Repo)
    requires repo.heads != []
    ensures r.heads != []
    decreases |steps|
  {
    if steps == [] then repo else RunOf(Do(repo, steps[0]), steps[1..])
  }

  /** Nothing is taken back. */
  ghost predicate Grows(r0: Repo, r1: Repo) {
    Valid(r1) && r0.commits <= r1.commits && r0.heads <= r1.heads && r0.own <= r1.own
  }

  lemma DoGrows(repo: Repo, step: Step)
    requires Valid(repo)
    ensures Grows(repo, Do(repo, step))
    ensures forall c | Private(repo, c) :: c in Do(repo, step).heads <==> Lands(repo, step, c)
  {
    var next := Do(repo, step);
    match step
    case Others(move) => Move1Quiet(repo, move);
    case Draft(tree, parent) =>
      if parent in repo.heads {
        AppendKeeps(repo, next, Commit(tree, [parent]));
      }
    case Update(c, _) =>
      if Lands(repo, step, c) {
        AdvanceKeeps(repo, c);
      }
  }

  lemma {:induction false} RunGrows(repo: Repo, steps: seq<Step>)
    requires Valid(repo)
    ensures Grows(repo, RunOf(repo, steps))
    decreases |steps|
  {
    if steps != [] {
      DoGrows(repo, steps[0]);
      RunGrows(Do(repo, steps[0]), steps[1..]);
    }
  }

  lemma {:induction false} RunConcat(repo: Repo, a: seq<Step>, b: seq<Step>)
    requires repo.heads != []
    ensures RunOf(repo, a + b) == RunOf(RunOf(repo, a), b)
    decreases |a|
  {
    if a == [] {
      assert a + b == b;
    } else {
      assert (a + b)[0] == a[0] && (a + b)[1..] == a[1..] + b;
      RunConcat(Do(repo, a[0]), a[1..], b);
    }
  }

  /** Over every run, in every interleaving: every commit that was ever on the branch, at any point of
      the run, is still part of it at any later point. */
  lemma RunIsSafe(repo: Repo, steps: seq<Step>, i: nat, j: nat)
    requires Valid(repo) && i <= j <= |steps|
    ensures var (past, now) := (RunOf(repo, steps[..i]), RunOf(repo, steps[..j]));
      Grows(past, now) && forall h | h in past.heads :: Ancestor(now.commits, h, Head(now))
  {
    var (past, now) := (RunOf(repo, steps[..i]), RunOf(repo, steps[..j]));
    RunGrows(repo, steps[..i]);
    assert steps[..j] == steps[..i] + steps[i..j];
    RunConcat(repo, steps[..i], steps[i..j]);
    RunGrows(past, steps[i..j]);
    GrowthKeeps(past, now);
  }

  lemma GrowthKeeps(r0: Repo, r1: Repo)
    requires r0.heads != [] && Grows(r0, r1)
    ensures forall h | h in r0.heads :: Ancestor(r1.commits, h, Head(r1))
  {
    forall h | h in r0.heads ensures Ancestor(r1.commits, h, Head(r1)) {
      var k :| 0 <= k < |r0.heads| && r0.heads[k] == h;
      assert r1.heads[k] == h;
    }
  }

  /** Whatever happens, a private commit reaches the branch exactly if an update to it is asked for,
      granted, and a fast-forward at that moment; otherwise it never becomes part of the branch. */
  lemma {:induction false} LandsExactly(repo: Repo, steps: seq<Step>, c: nat)
    requires Valid(repo) && Private(repo, c)
    ensures var now := RunOf(repo, steps);
      Ancestor(now.commits, c, Head(now)) <==>
        exists k | 0 <= k < |steps| :: Lands(RunOf(repo, steps[..k]), steps[k], c)
    decreases |steps|
  {
    var now := RunOf(repo, steps);
    RunGrows(repo, steps);
    if steps == [] {
      PrivateUnseen(now, c, Head(now));
    } else {
      var next := Do(repo, steps[0]);
      DoGrows(repo, steps[0]);
      assert steps[..0] == [];
      assert RunOf(repo, steps[..0]) == repo;
      if Lands(repo, steps[0], c) {
        StaysOn(next, steps[1..], c);
      } else {
        LandsExactly(next, steps[1..], c);
        forall k | 0 < k < |steps| ensures RunOf(repo, steps[..k]) == RunOf(next, steps[1..][..k - 1]) {
          assert steps[..k][0] == steps[0] && steps[..k][1..] == steps[1..][..k - 1];
        }
        if k :| 0 <= k < |steps| && Lands(RunOf(repo, steps[..k]), steps[k], c) {
          assert Lands(RunOf(next, steps[1..][..k - 1]), steps[1..][k - 1], c);
        }
        if k :| 0 <= k < |steps[1..]| && Lands(RunOf(next, steps[1..][..k]), steps[1..][k], c) {
          assert Lands(RunOf(repo, steps[..k + 1]), steps[k + 1], c);
        }
      }
    }
  }

  lemma StaysOn(repo: Repo, steps: seq<Step>, c: nat)
    requires Valid(repo) && c in repo.heads
    ensures var now := RunOf(repo, steps); Ancestor(now.commits, c, Head(now))
  {
    RunIsSafe(repo, steps, 0, |steps|);
    assert steps[..0] == [] && steps[..|steps|] == steps;
  }

  /** What others do is a run of their own steps. */
  function OthersOf(moves: seq<Move>): seq<Step> {
    seq(|moves|, i requires 0 <= i < |moves| => Others(moves[i]))
  }

  lemma {:induction false} MovedIsRun(repo: Repo, moves: seq<Move>)
    requires repo.heads != []
    ensures RunOf(repo, OthersOf(moves)) == Moved(repo, moves)
    decreases |moves|
  {
    if moves != [] {
      assert OthersOf(moves)[1..] == OthersOf(moves[1..]);
      MovedIsRun(Move1(repo, moves[0]), moves[1..]);
    }
  }
}
