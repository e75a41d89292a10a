/** The landing protocol: submitting, claiming, running and cancelling jobs, crashes of the worker,
    and pushes by others, as steps of a state machine. */
module LandingProtocol {

  import opened Options
  import opened Sequences
  import opened LandingJobs

  type RevisionId = int

  type DiffId = int

  /** The row of a Phabricator revision: the diff and patch of the latest landing request. */
  datatype Revision = Revision(diff: DiffId, patch: Patch)

  /** A row that associates a job with a revision. */
  datatype Association = Association(index: Option<nat>, diff: Option<DiffId>)

  type Associations = map<(JobId, RevisionId), Association>

  /** A local clone: published commits, drafts on top of them, and uncommitted changes. */
  datatype Clone = Clone(published: seq<Commit>, drafts: seq<Commit>, uncommitted: seq<Piece>) {
    /** Reverts uncommitted changes and strips every commit that is not public. */
    function Clean(): Clone {
      Clone(published, [], [])
    }
  }

  datatype State = State(
    jobs: map<JobId, Job>,
    nextJob: JobId,
    revisions: map<RevisionId, Revision>,
    associations: Associations,
    running: Option<JobId>,
    remotes: map<RepoName, seq<Commit>>,
    clones: map<RepoName, Clone>,
    now: nat
  )

  /** One revision of a landing request, with its latest diff and the patch built for it. */
  datatype Requested = Requested(revision: RevisionId, diff: DiffId, patch: Patch)

  // ---------------------------------------------------------------------------
  // Submission
  // ---------------------------------------------------------------------------

  function RevisionsOf(path: seq<Requested>): (r: seq<RevisionId>)
    ensures |r| == |path|
    ensures forall i | 0 <= i < |r| :: r[i] == path[i].revision
  {
    seq(|path|, i requires 0 <= i < |path| => path[i].revision)
  }

  /** The blocker of an assessment: an active job holds a revision of the stack. */
  predicate AlreadyRequested(st: State, stack: set<RevisionId>) {
    exists key | key in st.associations :: key.0 in st.jobs && st.jobs[key.0].status.Active() && key.1 in stack
  }

  /** The second look, under the table lock: a submitted or running job holds a requested revision. */
  predicate RecheckFails(st: State, path: seq<Requested>) {
    exists key | key in st.associations ::
      key.0 in st.jobs && st.jobs[key.0].status in {Submitted, InProgress} && key.1 in RevisionsOf(path)
  }

  /** A path of distinct revisions of the stack. */
  predicate IsRequest(path: seq<Requested>, stack: set<RevisionId>) {
    path != [] && Distinct(RevisionsOf(path)) && forall i | 0 <= i < |path| :: path[i].revision in stack
  }

  /** Overwrites the rows of the requested revisions. */
  function Rewrite(revisions: map<RevisionId, Revision>, path: seq<Requested>): map<RevisionId, Revision>
    decreases |path|
  {
    if path == [] then
      revisions
    else
      var p := path[|path| - 1];
      Rewrite(revisions, path[..|path| - 1])[p.revision := Revision(p.diff, p.patch)]
  }

  /** The finished association rows of a new job. */
  function Associate(associations: Associations, j: JobId, path: seq<Requested>): Associations
    decreases |path|
  {
    if path == [] then
      associations
    else
      var n := |path| - 1;
      Associate(associations, j, path[..n])[(j, path[n].revision) := Association(Some(n), Some(path[n].diff))]
  }

  function Submit(st: State, path: seq<Requested>, repo: RepoName, requester: string, priority: int): State {
    st.(
      jobs := st.jobs[st.nextJob := Job(Submitted, repo, requester, priority, st.now, 0, None)],
      nextJob := st.nextJob + 1,
      revisions := Rewrite(st.revisions, path),
      associations := Associate(st.associations, st.nextJob, path))
  }

  // ---------------------------------------------------------------------------
  // Running a job
  // ---------------------------------------------------------------------------

  datatype PullResult = Pulled | ServerError | ConversionError | PullError

  /** Import by hg, or by the external patch tool once hg has reported a conflict. `Swallowed` is an
      import that failed after changing something, but not with a conflict: its error is ignored. */
  datatype ImportResult = Applied | AppliedOnRetry | Swallowed | Conflict | NoDiffStartLine | ImportError

  datatype FormatResult = NotFormatted | Formatted | FormatError

  datatype PushResult = Pushed | TemporaryPushError | PushError

  /** What the outside world contributes to one attempt. `pulledAnyway` says whether a failing
      update had already pulled; `racing` is what others push between our pull and our push. */
  datatype Weather = Weather(
    treeOpen: bool,
    pull: PullResult,
    pulledAnyway: bool,
    imports: seq<ImportResult>,
    format: FormatResult,
    racing: seq<Commit>,
    push: PushResult
  ) {
    function Import(i: nat): ImportResult {
      if i < |imports| then imports[i] else Applied
    }
  }

  datatype Verdict = Lands(commit: Option<Commit>) | Defers | ConversionFails | Fails

  datatype Attempt = Attempt(clone: Clone, remote: seq<Commit>, verdict: Verdict)

  /** The worker goes on to commit what was imported. */
  predicate IsCommitted(r: ImportResult) {
    r == Applied || r == AppliedOnRetry || r == Swallowed
  }

  /** One commit per patch, with the whole patch and nothing else. */
  function CommitsOf(patches: seq<Patch>): (r: seq<Commit>)
    ensures |r| == |patches|
    ensures forall i | 0 <= i < |r| :: r[i] == Made([Whole(patches[i])])
  {
    seq(|patches|, i requires 0 <= i < |patches| => Made([Whole(patches[i])]))
  }

  /** One commit per patch, with what was imported of it. */
  function ImportedCommits(patches: seq<Patch>, w: Weather): (r: seq<Commit>)
    ensures |r| == |patches|
    ensures forall i | 0 <= i < |r| :: r[i] == Made([Imported(patches[i], w.Import(i))])
  {
    seq(|patches|, i requires 0 <= i < |patches| => Made([Imported(patches[i], w.Import(i))]))
  }

  function Imported(patch: Patch, r: ImportResult): Piece {
    if r == Swallowed then Part(patch) else Whole(patch)
  }

  /** Formatting amends a single commit and adds a commit on top of any other stack. */
  function Format(drafts: seq<Commit>, result: FormatResult): seq<Commit> {
    if result != Formatted then drafts
    else if |drafts| == 1 && drafts[0].Made? then [Made(drafts[0].content + [Formatting])]
    else drafts + [Made([Formatting])]
  }

  /** The block of commits that landing these patches publishes. */
  function Block(patches: seq<Patch>, w: Weather): seq<Commit> {
    Format(ImportedCommits(patches, w), w.format)
  }

  /** What is published for these patches: a commit for each of them, in their order, with what was
      imported of it; if the formatters changed anything, that is part of the commit if there is just
      one, and a commit of its own, on top, otherwise. */
  predicate IsBlockOf(commits: seq<Commit>, patches: seq<Patch>, w: Weather) {
    if w.format == Formatted && |patches| == 1 then
      commits == [Made([Imported(patches[0], w.Import(0)), Formatting])]
    else
      && |commits| == |patches| + (if w.format == Formatted then 1 else 0)
      && (forall i | 0 <= i < |patches| :: commits[i] == Made([Imported(patches[i], w.Import(i))]))
      && (w.format == Formatted ==> commits[|patches|] == Made([Formatting]))
  }

  lemma BlockIsBlock(patches: seq<Patch>, w: Weather)
    ensures IsBlockOf(Block(patches, w), patches, w)
  {
    var commits := ImportedCommits(patches, w);
    if w.format == Formatted && |patches| == 1 {
      assert commits[0].content + [Formatting] == [Imported(patches[0], w.Import(0)), Formatting];
    }
  }

  /** The block that one would expect. */
  function WholeBlock(patches: seq<Patch>, result: FormatResult): seq<Commit> {
    Format(CommitsOf(patches), result)
  }

  /** The attempt to land `n` patches gets as far as pushing. */
  predicate ReachesPush(n: nat, w: Weather) {
    w.treeOpen && w.pull == Pulled && (forall i | 0 <= i < n :: IsCommitted(w.Import(i))) && w.format != FormatError
  }

  /** It pushes, and nobody else did since the pull. */
  predicate CanLand(n: nat, w: Weather) {
    ReachesPush(n, w) && w.push == Pushed && w.racing == []
  }

  /** It ends with the formatters failing. */
  predicate FormattingFails(n: nat, w: Weather) {
    w.treeOpen && w.pull == Pulled && (forall i | 0 <= i < n :: IsCommitted(w.Import(i))) && w.format == FormatError
  }

  function Last<T>(s: seq<T>): Option<T> {
    if s == [] then None else Some(s[|s| - 1])
  }

  /** The attempt to land patches from a clone to a remote repository. */
  function Try(clone: Clone, remote: seq<Commit>, patches: seq<Patch>, w: Weather): Attempt {
    if !w.treeOpen then
      Attempt(clone, remote, Defers)
    else if w.pull != Pulled then
      Attempt(Clone(if w.pulledAnyway then remote else clone.published, [], []), remote,
        match w.pull case ServerError => Defers case ConversionError => ConversionFails case _ => Fails)
    else if exists i | 0 <= i < |patches| :: !IsCommitted(w.Import(i)) then
      Attempt(Clone(remote, [], []), remote, Fails)
    else if w.format == FormatError then
      Attempt(Clone(remote, [], []), remote, Fails)
    else
      var block, found := Block(patches, w), remote + w.racing;
      if w.push == Pushed && found == remote then
        Attempt(Clone(remote + block, [], []), remote + block, Lands(Last(block)))
      else
        Attempt(Clone(remote, [], []), found, if w.push == PushError then Fails else Defers)
  }

  /** Five conversion failures in a row, or any five attempts, make the failure permanent. */
  function Conclude(job: Job, verdict: Verdict): Job {
    match verdict
    case Lands(commit) => Transition(job, Land(commit))
    case Defers => Transition(job, Defer)
    case ConversionFails => Transition(job, if job.attempts < 5 then Defer else Fail)
    case Fails => Transition(job, Fail)
  }

  /** `path` lists the revisions of the job, sorted by the index of their association rows. */
  ghost predicate IsSortedPath(associations: Associations, j: JobId, path: seq<RevisionId>) {
    && Distinct(path)
    && (forall r :: r in path <==> (j, r) in associations)
    && (forall i | 0 <= i < |path| :: (j, path[i]) in associations && associations[(j, path[i])].index == Some(i))
  }

  function PatchesOf(revisions: map<RevisionId, Revision>, path: seq<RevisionId>): (r: seq<Patch>)
    requires forall i | 0 <= i < |path| :: path[i] in revisions
    ensures |r| == |path|
    ensures forall i | 0 <= i < |r| :: r[i] == revisions[path[i]].patch
  {
    seq(|path|, i requires 0 <= i < |path| => revisions[path[i]].patch)
  }

  ghost predicate CanRun(st: State, path: seq<RevisionId>) {
    && st.running.Some? && st.running.value in st.jobs
    && var j := st.running.value;
      st.jobs[j].repo in st.remotes && st.jobs[j].repo in st.clones
      && IsSortedPath(st.associations, j, path)
      && (forall i | 0 <= i < |path| :: path[i] in st.revisions)
  }

  ghost function AttemptOf(st: State, path: seq<RevisionId>, w: Weather): Attempt
    requires CanRun(st, path)
  {
    var repo := st.jobs[st.running.value].repo;
    Try(st.clones[repo], st.remotes[repo], PatchesOf(st.revisions, path), w)
  }

  ghost function Run(st: State, path: seq<RevisionId>, w: Weather): State
    requires CanRun(st, path)
  {
    var j, a := st.running.value, AttemptOf(st, path, w);
    var repo := st.jobs[j].repo;
    st.(
      jobs := st.jobs[j := Conclude(st.jobs[j], a.verdict)],
      running := None,
      remotes := st.remotes[repo := a.remote],
      clones := st.clones[repo := a.clone])
  }

  // ---------------------------------------------------------------------------
  // Steps
  // ---------------------------------------------------------------------------

  datatype Step =
    /** Assessing a request, rewriting its revisions and inserting the job, as one step. */
    | Submission(stack: set<RevisionId>, request: seq<Requested>, repo: RepoName, requester: string, priority: int)
    /** The worker claims the next job from its enabled repositories. */
    | Claim(job: JobId, repos: set<RepoName>, grace: nat)
    /** The worker runs the claimed job to its end. */
    | Running(path: seq<RevisionId>, weather: Weather)
    /** The requester cancels a job. */
    | Cancellation(job: JobId)
    /** The worker dies before it pushes, leaving any drafts and uncommitted changes behind. */
    | Crash(drafts: seq<Commit>, uncommitted: seq<Piece>, pulled: bool)
    /** Someone else pushes. */
    | OtherPush(repo: RepoName, commits: seq<Commit>)
    /** Time passes. */
    | Tick

  ghost predicate Enabled(st: State, step: Step) {
    match step
    case Submission(stack, path, repo, _, _) =>
      IsRequest(path, stack) && !AlreadyRequested(st, stack) && !RecheckFails(st, path) && repo in st.remotes && repo in st.clones
    case Claim(j, repos, grace) => st.running.None? && IsNext(st.jobs, repos, st.now, grace, j)
    case Running(path, _) => CanRun(st, path)
    case Cancellation(j) => j in st.jobs && st.jobs[j].status in {Submitted, Deferred}
    case Crash(_, _, _) =>
      st.running.Some? && st.running.value in st.jobs && st.jobs[st.running.value].repo in st.remotes
      && st.jobs[st.running.value].repo in st.clones
    case OtherPush(repo, _) => repo in st.remotes
    case Tick => true
  }

  ghost function Next(st: State, step: Step): State
    requires Enabled(st, step)
  {
    match step
    case Submission(_, path, repo, requester, priority) => Submit(st, path, repo, requester, priority)
    case Claim(j, _, _) =>
      st.(jobs := st.jobs[j := st.jobs[j].(status := InProgress, attempts := st.jobs[j].attempts + 1)], running := Some(j))
    case Running(path, w) => Run(st, path, w)
    case Cancellation(j) => st.(jobs := st.jobs[j := Transition(st.jobs[j], Cancel)])
    case Crash(drafts, uncommitted, pulled) =>
      var repo := st.jobs[st.running.value].repo;
      var published := if pulled then st.remotes[repo] else st.clones[repo].published;
      st.(running := None, clones := st.clones[repo := Clone(published, drafts, uncommitted)])
    case OtherPush(repo, commits) => st.(remotes := st.remotes[repo := st.remotes[repo] + commits])
    case Tick => st.(now := st.now + 1)
  }

  /** Repositories and their clones, and no job yet. */
  ghost predicate Initial(st: State) {
    && st.jobs == map[] && st.associations == map[] && st.running == None
    && (forall repo | repo in st.remotes && repo in st.clones :: st.clones[repo].published <= st.remotes[repo])
  }

  ghost predicate IsExecution(run: seq<State>, steps: seq<Step>) {
    && |run| == |steps| + 1 && Initial(run[0])
    && (forall i | 0 <= i < |steps| :: Enabled(run[i], steps[i]) && run[i + 1] == Next(run[i], steps[i]))
  }
}
