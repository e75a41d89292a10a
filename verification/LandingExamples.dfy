/** Executions in which guarantees that one might expect of the landing protocol fail. */
module LandingExamples {

  import opened Options
  import opened LandingJobs
  import opened LandingProtocol
  import opened LandingLaws

  const X := RepoName("x")
  const Y := RepoName("y")

  const FIRST_REQUEST := [Requested(1, 10, Patch("a"))]
  const SECOND_REQUEST := [Requested(2, 20, Patch("b"))]

  /** The first revision again, with a later diff. */
  const LATER_REQUEST := [Requested(1, 11, Patch("c"))]

  const TREE_CLOSED := Weather(false, Pulled, false, [], NotFormatted, [], Pushed)

  function JobWith(status: Status, repo: RepoName, attempts: nat): Job {
    Job(status, repo, "", 0, 0, attempts, None)
  }

  /** Two empty repositories and these jobs, with their revisions. */
  function StateWith(jobs: Jobs, revisions: map<RevisionId, Revision>, associations: Associations, running: Option<JobId>): State {
    State(jobs, |jobs|, revisions, associations, running,
      map[X := [], Y := []], map[X := Clone([], [], []), Y := Clone([], [], [])], 0)
  }

  /** The first request was submitted, and its job has this status. */
  function FirstState(status: Status, attempts: nat, running: Option<JobId>): State {
    StateWith(map[0 := JobWith(status, X, attempts)], map[1 := Revision(10, Patch("a"))],
      map[(0, 1) := Association(Some(0), Some(10))], running)
  }

  /** Both requests were submitted, and their jobs have these statuses. */
  function BothState(first: Status, firstAttempts: nat, second: Status, secondAttempts: nat, running: Option<JobId>): State {
    StateWith(map[0 := JobWith(first, X, firstAttempts), 1 := JobWith(second, Y, secondAttempts)],
      map[1 := Revision(10, Patch("a")), 2 := Revision(20, Patch("b"))],
      map[(0, 1) := Association(Some(0), Some(10)), (1, 2) := Association(Some(0), Some(20))], running)
  }

  ghost predicate Leads(st: State, step: Step, st': State) {
    Enabled(st, step) && Next(st, step) == st'
  }

  /** Some execution ends in this state. */
  ghost predicate Reachable(st: State) {
    exists run, steps :: IsExecution(run, steps) && run[|steps|] == st
  }

  lemma ReachNext(st: State, step: Step, st': State)
    requires Reachable(st) && Leads(st, step, st')
    ensures Reachable(st')
  {
    hide Enabled, Next;
    var run, steps :| IsExecution(run, steps) && run[|steps|] == st;
    var run', steps' := run + [st'], steps + [step];
    forall i | 0 <= i < |steps'|
      ensures Enabled(run'[i], steps'[i]) && run'[i + 1] == Next(run'[i], steps'[i])
    {
      if i < |steps| {
        StepOf(run, steps, i);
      }
    }
    assert IsExecution(run', steps');
  }

  lemma OneRequest(p: Requested)
    ensures IsRequest([p], {p.revision}) && RevisionsOf([p]) == [p.revision]
    ensures forall revisions :: Rewrite(revisions, [p]) == revisions[p.revision := Revision(p.diff, p.patch)]
    ensures forall associations, j ::
      Associate(associations, j, [p]) == associations[(j, p.revision) := Association(Some(0), Some(p.diff))]
  {
    assert RevisionsOf([p])[0] == p.revision;
    assert [p][..0] == [];
    assert forall revisions :: Rewrite(revisions, []) == revisions;
    assert forall associations, j :: Associate(associations, j, []) == associations;
  }

  lemma FirstSubmitted()
    ensures Reachable(FirstState(Submitted, 0, None))
  {
    var none := StateWith(map[], map[], map[], None);
    var run, steps: seq<Step> := [none], [];
    assert IsExecution(run, steps) && run[|steps|] == none;
    OneRequest(FIRST_REQUEST[0]);
    var step := Submission({1}, FIRST_REQUEST, X, "", 0);
    assert Leads(none, step, FirstState(Submitted, 0, None));
    ReachNext(none, step, FirstState(Submitted, 0, None));
  }

  lemma FirstClaimed()
    ensures Reachable(FirstState(InProgress, 1, Some(0)))
  {
    hide Reachable;
    FirstSubmitted();
    var waiting, claimed := FirstState(Submitted, 0, None), FirstState(InProgress, 1, Some(0));
    assert Leads(waiting, Claim(0, {X}, 0), claimed);
    ReachNext(waiting, Claim(0, {X}, 0), claimed);
  }

  lemma FirstDeferred()
    ensures Reachable(FirstState(Deferred, 1, None))
  {
    hide Reachable;
    FirstClaimed();
    var claimed := FirstState(InProgress, 1, Some(0));
    assert IsSortedPath(claimed.associations, 0, [1]);
    assert Leads(claimed, Running([1], TREE_CLOSED), FirstState(Deferred, 1, None));
    ReachNext(claimed, Running([1], TREE_CLOSED), FirstState(Deferred, 1, None));
  }

  /** The import of the only patch fails on the way, but not with a conflict. */
  const IMPORT_FAILS := Weather(true, Pulled, false, [Swallowed], NotFormatted, [], Pushed)

  const PART := Made([Part(Patch("a"))])

  lemma PartIsTried()
    ensures Try(Clone([], [], []), [], [Patch("a")], IMPORT_FAILS) == Attempt(Clone([PART], [], []), [PART], Lands(Some(PART)))
    ensures [PART] != WholeBlock([Patch("a")], NotFormatted)
  {
    assert IMPORT_FAILS.Import(0) == Swallowed;
    assert Block([Patch("a")], IMPORT_FAILS) == [PART];
    assert [] + [PART] == [PART];
    var none: seq<Commit> := [];
    assert none + IMPORT_FAILS.racing == none;
    assert [Part(Patch("a"))][0] != [Whole(Patch("a"))][0];
    assert WholeBlock([Patch("a")], NotFormatted)[0] == Made([Whole(Patch("a"))]);
  }

  /** The job lands, and a part of its patch is published. */
  lemma PartOfPatchLands()
    ensures var st := FirstState(InProgress, 1, Some(0));
      && Reachable(st) && Enabled(st, Running([1], IMPORT_FAILS))
      && var st' := Next(st, Running([1], IMPORT_FAILS));
        && Reachable(st') && st'.jobs[0].status == Landed && st'.remotes[X] == [PART]
        && [PART] != WholeBlock([Patch("a")], NotFormatted)
  {
    hide Reachable, Try, WholeBlock;
    FirstClaimed();
    PartIsTried();
    var st, step := FirstState(InProgress, 1, Some(0)), Running([1], IMPORT_FAILS);
    assert IsSortedPath(st.associations, 0, [1]);
    assert PatchesOf(st.revisions, [1]) == [Patch("a")];
    assert Leads(st, step, Next(st, step));
    ReachNext(st, step, Next(st, step));
  }

  const FORMATTING_FAILS := Weather(true, Pulled, false, [], FormatError, [], Pushed)

  /** When the formatters fail the job has failed for good, although this is what is reported as
      temporary. */
  lemma FormattingFailureIsFinal()
    ensures var st := FirstState(InProgress, 1, Some(0));
      && Reachable(st) && Enabled(st, Running([1], FORMATTING_FAILS)) && FormattingFails(1, FORMATTING_FAILS)
      && Next(st, Running([1], FORMATTING_FAILS)).jobs[0].status == Failed
  {
    hide Reachable;
    FirstClaimed();
    var st := FirstState(InProgress, 1, Some(0));
    assert IsSortedPath(st.associations, 0, [1]);
  }

  /** With no repository enabled, a job is claimed all the same. */
  lemma ClaimedWithoutRepositories()
    ensures var st := FirstState(Submitted, 0, None); Reachable(st) && Enabled(st, Claim(0, {}, 0))
  {
    hide Reachable;
    FirstSubmitted();
  }

  /** The second look alone lets a revision through that a deferred job holds: it is then held
      twice, and the patch that the deferred job was submitted with is gone. */
  lemma RecheckNotEnough()
    ensures var st := FirstState(Deferred, 1, None);
      && Reachable(st) && IsRequest(LATER_REQUEST, {1}) && !RecheckFails(st, LATER_REQUEST)
      && PatchesStable(st.jobs, st.revisions, map[0 := FIRST_REQUEST])
      && var st' := Submit(st, LATER_REQUEST, X, "", 0);
        && !Exclusive(st'.jobs, st'.associations)
        && !PatchesStable(st'.jobs, st'.revisions, map[0 := FIRST_REQUEST, 1 := LATER_REQUEST])
  {
    hide Reachable;
    FirstDeferred();
    OneRequest(LATER_REQUEST[0]);
    var st := FirstState(Deferred, 1, None);
    var st' := Submit(st, LATER_REQUEST, X, "", 0);
    assert (0, 1) in st'.associations && (1, 1) in st'.associations;
    var submitted: Requests := map[0 := FIRST_REQUEST, 1 := LATER_REQUEST];
    assert !StoredAs(st'.revisions, submitted[0][0]);
  }

  lemma SecondSubmitted()
    ensures Reachable(BothState(Deferred, 1, Submitted, 0, None))
  {
    hide Reachable;
    FirstDeferred();
    OneRequest(SECOND_REQUEST[0]);
    var one, both := FirstState(Deferred, 1, None), BothState(Deferred, 1, Submitted, 0, None);
    var submission := Submission({2}, SECOND_REQUEST, Y, "", 0);
    assert Leads(one, submission, both);
    ReachNext(one, submission, both);
  }

  lemma SecondClaimed()
    ensures Reachable(BothState(Deferred, 1, InProgress, 1, Some(1)))
  {
    hide Reachable;
    SecondSubmitted();
    var both, claimed := BothState(Deferred, 1, Submitted, 0, None), BothState(Deferred, 1, InProgress, 1, Some(1));
    assert Leads(both, Claim(1, {Y}, 0), claimed);
    ReachNext(both, Claim(1, {Y}, 0), claimed);
  }

  /** While the tree of its repository is closed a job is deferred; the job of another repository is
      claimed, and the worker crashes. Once both repositories are enabled, the deferred job goes
      before the one left in progress, and two jobs are in progress, one in each repository. */
  lemma CrashThenDeferred()
    ensures var crashed := BothState(Deferred, 1, InProgress, 1, None);
      && Reachable(crashed) && Reachable(BothState(InProgress, 2, InProgress, 1, Some(0)))
      && Leads(crashed, Claim(0, {X, Y}, 0), BothState(InProgress, 2, InProgress, 1, Some(0)))
      && !Enabled(crashed, Claim(1, {X, Y}, 0))
  {
    hide Reachable;
    SecondClaimed();
    var claimed, crashed := BothState(Deferred, 1, InProgress, 1, Some(1)), BothState(Deferred, 1, InProgress, 1, None);
    assert Leads(claimed, Crash([], [], false), crashed);
    ReachNext(claimed, Crash([], [], false), crashed);
    var again := BothState(InProgress, 2, InProgress, 1, Some(0));
    assert Leads(crashed, Claim(0, {X, Y}, 0), again);
    ReachNext(crashed, Claim(0, {X, Y}, 0), again);
    assert Before(crashed.jobs[0], crashed.jobs[1]);
  }
}
