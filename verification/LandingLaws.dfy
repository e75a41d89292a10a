/** What every execution of the landing protocol keeps. */
module LandingLaws {

  import opened Options
  import opened Sequences
  import opened LandingJobs
  import opened LandingProtocol

  type Jobs = map<JobId, Job>

  type Requests = map<JobId, seq<Requested>>

  // ---------------------------------------------------------------------------
  // Histories
  // ---------------------------------------------------------------------------

  /** A contribution to a remote repository: commits of others, or the block of one job. */
  datatype Entry = Others(commits: seq<Commit>) | LandedBlock(job: JobId, weather: Weather, commits: seq<Commit>)

  type Ledger = map<RepoName, seq<Entry>>

  /** What an execution has done so far: the requests that became jobs, the contributions to each
      remote repository in their order, and how often each job was deferred because its target
      could not be converted. */
  datatype History = History(submitted: Requests, ledger: Ledger, conversions: map<JobId, nat>)

  /** What others push while `n` patches are on their way: nothing is seen of it unless the attempt
      gets as far as pushing. */
  function OutsideDuring(n: nat, w: Weather): seq<Commit> {
    if ReachesPush(n, w) then w.racing else []
  }

  /** What an attempt has to contribute to its remote repository, by its patches and the weather
      alone: the block of the job if it can land, and nothing but the pushes of others if it cannot. */
  function Contribution(j: JobId, patches: seq<Patch>, w: Weather): Entry {
    if CanLand(|patches|, w) then LandedBlock(j, w, Block(patches, w)) else Others(OutsideDuring(|patches|, w))
  }

  function Append(ledger: Ledger, repo: RepoName, e: Entry): Ledger
    requires repo in ledger
  {
    ledger[repo := ledger[repo] + [e]]
  }

  ghost function Record(h: History, st: State, step: Step): History
    requires Enabled(st, step) && h.ledger.Keys == st.remotes.Keys && h.conversions.Keys == st.jobs.Keys
  {
    match step
    case Submission(_, request, _, _, _) =>
      h.(submitted := h.submitted[st.nextJob := request], conversions := h.conversions[st.nextJob := 0])
    case OtherPush(repo, commits) =>
      h.(ledger := Append(h.ledger, repo, Others(commits)))
    case Running(path, w) =>
      var j, a := st.running.value, AttemptOf(st, path, w);
      var repo := st.jobs[j].repo;
      var deferred := a.verdict == ConversionFails && Conclude(st.jobs[j], a.verdict).status == Deferred;
      h.(ledger := Append(h.ledger, repo, Contribution(j, PatchesOf(st.revisions, path), w)),
         conversions := h.conversions[j := h.conversions[j] + if deferred then 1 else 0])
    case _ => h
  }

  function Flatten(ledger: seq<Entry>): seq<Commit>
    decreases |ledger|
  {
    if ledger == [] then [] else Flatten(ledger[..|ledger| - 1]) + ledger[|ledger| - 1].commits
  }

  function Count(ledger: seq<Entry>, j: JobId): nat
    decreases |ledger|
  {
    if ledger == [] then 0
    else Count(ledger[..|ledger| - 1], j) + (if ledger[|ledger| - 1].LandedBlock? && ledger[|ledger| - 1].job == j then 1 else 0)
  }

  /** The commits of others in a ledger, in their order. */
  function OthersOf(ledger: seq<Entry>): seq<Commit>
    decreases |ledger|
  {
    if ledger == [] then []
    else OthersOf(ledger[..|ledger| - 1]) + (if ledger[|ledger| - 1].Others? then ledger[|ledger| - 1].commits else [])
  }

  lemma LedgerSnoc(ledger: seq<Entry>, e: Entry, j: JobId)
    ensures OthersOf(ledger + [e]) == OthersOf(ledger) + (if e.Others? then e.commits else [])
    ensures Flatten(ledger + [e]) == Flatten(ledger) + e.commits
    ensures Count(ledger + [e], j) == Count(ledger, j) + (if e.LandedBlock? && e.job == j then 1 else 0)
  {
    assert (ledger + [e])[..|ledger|] == ledger;
  }

  function PatchesRequested(request: seq<Requested>): (r: seq<Patch>)
    ensures |r| == |request|
    ensures forall i | 0 <= i < |r| :: r[i] == request[i].patch
  {
    seq(|request|, i requires 0 <= i < |request| => request[i].patch)
  }

  // ---------------------------------------------------------------------------
  // Attempts
  // ---------------------------------------------------------------------------

  /** What an attempt publishes and leaves behind: it adds its contribution to the remote, and the
      clone knows only published commits. Once past the tree check it leaves no drafts. */
  lemma TryEffect(clone: Clone, remote: seq<Commit>, j: JobId, patches: seq<Patch>, w: Weather)
    ensures var a, e := Try(clone, remote, patches, w), Contribution(j, patches, w);
      && a.remote == remote + e.commits
      && (clone.published <= remote ==> a.clone.published <= a.remote)
      && (a.verdict.Lands? <==> e.LandedBlock?)
      && (a.verdict.Lands? ==> w.format != FormatError && a.verdict.commit == Last(e.commits))
      && (w.treeOpen ==> a.clone.drafts == [] && a.clone.uncommitted == [])
      && (!w.treeOpen ==> a == Attempt(clone, remote, Defers))
  {
    hide Block;
    assert remote + [] == remote;
    assert remote + w.racing == remote <==> w.racing == [] by {
      assert |remote + w.racing| == |remote| + |w.racing|;
    }
  }

  /** The outcome of an attempt does not depend on what an earlier attempt, or a crash, left in the
      clone. */
  lemma TryIgnoresLeftovers(a: Clone, b: Clone, remote: seq<Commit>, patches: seq<Patch>, w: Weather)
    requires w.treeOpen
    ensures Try(a, remote, patches, w).remote == Try(b, remote, patches, w).remote
    ensures Try(a, remote, patches, w).verdict == Try(b, remote, patches, w).verdict
    ensures w.pull == Pulled ==> Try(a, remote, patches, w).clone == Try(b, remote, patches, w).clone
  {
    hide Block;
  }

  lemma FormatInjective(a: seq<Commit>, b: seq<Commit>, result: FormatResult)
    requires |a| == |b| && (forall i | 0 <= i < |a| :: a[i].Made? && b[i].Made?) && Format(a, result) == Format(b, result)
    ensures a == b
  {
    if result == Formatted {
      if |a| == 1 {
        assert a[0].content == (a[0].content + [Formatting])[..|a[0].content|];
        assert |a[0].content + [Formatting]| == |b[0].content + [Formatting]|;
        assert b[0].content == (b[0].content + [Formatting])[..|b[0].content|];
      } else {
        assert a == Format(a, result)[..|a|] && b == Format(b, result)[..|b|];
      }
    }
  }

  /** A block holds all patches as wholes exactly when no import failed without a conflict: that error
      is ignored, and what was changed before it is committed under the message of the whole patch. */
  lemma WholeBlockIff(patches: seq<Patch>, w: Weather)
    ensures Block(patches, w) == WholeBlock(patches, w.format) <==> forall i | 0 <= i < |patches| :: w.Import(i) != Swallowed
  {
    hide Format;
    var a, b := ImportedCommits(patches, w), CommitsOf(patches);
    if Block(patches, w) == WholeBlock(patches, w.format) {
      FormatInjective(a, b, w.format);
      forall i | 0 <= i < |patches|
        ensures w.Import(i) != Swallowed
      {
        assert a[i] == b[i];
        assert [Imported(patches[i], w.Import(i))][0] == [Whole(patches[i])][0];
      }
    }
    assert (forall i | 0 <= i < |patches| :: w.Import(i) != Swallowed) ==> a == b;
  }

  // ---------------------------------------------------------------------------
  // Single steps
  // ---------------------------------------------------------------------------

  /** Final statuses are never left, and a job becomes cancelled only while it waits. */
  lemma StatusChanges(st: State, step: Step, j: JobId)
    requires Enabled(st, step) && j in st.jobs
    requires st.running.Some? ==> st.running.value in st.jobs && st.jobs[st.running.value].status == InProgress
    requires forall k | k in st.jobs :: k < st.nextJob
    ensures j in Next(st, step).jobs
    ensures st.jobs[j].status.Final() ==> Next(st, step).jobs[j] == st.jobs[j]
    ensures Next(st, step).jobs[j].status == Cancelled && st.jobs[j].status != Cancelled ==> st.jobs[j].status in {Submitted, Deferred}
    ensures Next(st, step).jobs[j].repo == st.jobs[j].repo && st.jobs[j].attempts <= Next(st, step).jobs[j].attempts
  {
    hide Try, IsSortedPath;
  }

  // ---------------------------------------------------------------------------
  // Invariants
  // ---------------------------------------------------------------------------

  ghost predicate Bookkeeping(st: State, h: History) {
    && h.submitted.Keys == st.jobs.Keys && h.conversions.Keys == st.jobs.Keys && h.ledger.Keys == st.remotes.Keys
    && (forall j | j in st.jobs :: j < st.nextJob && st.jobs[j].repo in st.remotes && st.jobs[j].repo in st.clones)
    && (forall key | key in st.associations :: key.0 in st.jobs && key.1 in st.revisions)
    && (st.running.Some? ==> st.running.value in st.jobs && st.jobs[st.running.value].status == InProgress)
  }

  /** The association rows of a job are the ones written when it was submitted: its revisions, in
      the requested order, each with the requested diff. */
  ghost predicate RecordedFor(associations: Associations, j: JobId, request: seq<Requested>) {
    && request != []
    && IsSortedPath(associations, j, RevisionsOf(request))
    && (forall i | 0 <= i < |request| :: associations[(j, RevisionsOf(request)[i])].diff == Some(request[i].diff))
  }

  ghost predicate Recorded(associations: Associations, submitted: Requests) {
    forall j | j in submitted :: RecordedFor(associations, j, submitted[j])
  }

  /** No two active jobs hold the same revision. */
  ghost predicate Exclusive(jobs: Jobs, associations: Associations) {
    forall j, k, r |
      && j in jobs && k in jobs && jobs[j].status.Active() && jobs[k].status.Active()
      && (j, r) in associations && (k, r) in associations :: j == k
  }

  ghost predicate StoredAs(revisions: map<RevisionId, Revision>, p: Requested) {
    p.revision in revisions && revisions[p.revision] == Revision(p.diff, p.patch)
  }

  /** The stored diff and patch of a revision are those requested for the active job holding it. */
  ghost predicate PatchesStable(jobs: Jobs, revisions: map<RevisionId, Revision>, submitted: Requests) {
    forall j, i | j in jobs && j in submitted && jobs[j].status.Active() && 0 <= i < |submitted[j]| ::
      StoredAs(revisions, submitted[j][i])
  }

  /** Each remote repository is what it was at first plus the contributions recorded for it, and
      each clone knows only published commits of its repository. */
  ghost predicate RemotesAccounted(first: map<RepoName, seq<Commit>>, remotes: map<RepoName, seq<Commit>>,
                                   clones: map<RepoName, Clone>, ledger: Ledger)
  {
    && remotes.Keys == first.Keys && ledger.Keys == first.Keys
    && (forall repo | repo in remotes :: remotes[repo] == first[repo] + Flatten(ledger[repo]))
    && (forall repo | repo in remotes && repo in clones :: clones[repo].published <= remotes[repo])
  }

  /** A block is made of the patches of the job as they were requested, in the requested order, under
      circumstances in which the job could land. */
  ghost predicate BlockOf(jobs: Jobs, submitted: Requests, repo: RepoName, e: Entry)
    requires e.LandedBlock?
  {
    && e.job in jobs && e.job in submitted && jobs[e.job].repo == repo && jobs[e.job].status == Landed
    && CanLand(|submitted[e.job]|, e.weather)
    && IsBlockOf(e.commits, PatchesRequested(submitted[e.job]), e.weather)
    && jobs[e.job].landedCommit == Last(e.commits)
  }

  ghost predicate BlocksAreOfJobs(jobs: Jobs, submitted: Requests, repo: RepoName, ledger: seq<Entry>) {
    forall i | 0 <= i < |ledger| && ledger[i].LandedBlock? :: BlockOf(jobs, submitted, repo, ledger[i])
  }

  /** Exactly one block per landed job, in its repository, and none for any other job. */
  ghost predicate BlocksMatchJobs(jobs: Jobs, submitted: Requests, ledger: Ledger) {
    && (forall repo | repo in ledger :: BlocksAreOfJobs(jobs, submitted, repo, ledger[repo]))
    && (forall j | j in jobs ::
      jobs[j].repo in ledger && Count(ledger[jobs[j].repo], j) == if jobs[j].status == Landed then 1 else 0)
  }

  ghost predicate ConversionsBounded(jobs: Jobs, running: Option<JobId>, conversions: map<JobId, nat>) {
    forall j | j in jobs && j in conversions ::
      && conversions[j] <= 4
      && conversions[j] + (if running == Some(j) then 1 else 0) <= jobs[j].attempts
  }

  ghost predicate Inv(first: map<RepoName, seq<Commit>>, st: State, h: History) {
    && Bookkeeping(st, h)
    && Recorded(st.associations, h.submitted)
    && Exclusive(st.jobs, st.associations)
    && PatchesStable(st.jobs, st.revisions, h.submitted)
    && RemotesAccounted(first, st.remotes, st.clones, h.ledger)
    && BlocksMatchJobs(st.jobs, h.submitted, h.ledger)
    && ConversionsBounded(st.jobs, st.running, h.conversions)
  }

  // ---------------------------------------------------------------------------
  // Submission
  // ---------------------------------------------------------------------------

  lemma {:induction false} RewriteEffect(revisions: map<RevisionId, Revision>, path: seq<Requested>, r: RevisionId)
    requires Distinct(RevisionsOf(path))
    ensures revisions.Keys <= Rewrite(revisions, path).Keys
    ensures r !in RevisionsOf(path) && r in revisions ==> Rewrite(revisions, path)[r] == revisions[r]
    ensures forall i | 0 <= i < |path| && path[i].revision == r :: StoredAs(Rewrite(revisions, path), path[i])
    decreases |path|
  {
    if path != [] {
      var init := path[..|path| - 1];
      assert RevisionsOf(path) == RevisionsOf(init) + [path[|path| - 1].revision];
      RewriteEffect(revisions, init, r);
    }
  }

  lemma {:induction false} AssociateEffect(associations: Associations, j: JobId, path: seq<Requested>, k: JobId, r: RevisionId)
    requires Distinct(RevisionsOf(path))
    ensures var after := Associate(associations, j, path);
      && ((k, r) in after <==> (k, r) in associations || (k == j && r in RevisionsOf(path)))
      && (k != j && (k, r) in associations ==> after[(k, r)] == associations[(k, r)])
      && (forall i | 0 <= i < |path| && path[i].revision == r :: (j, r) in after && after[(j, r)] == Association(Some(i), Some(path[i].diff)))
    decreases |path|
  {
    if path != [] {
      var init := path[..|path| - 1];
      assert RevisionsOf(path) == RevisionsOf(init) + [path[|path| - 1].revision];
      AssociateEffect(associations, j, init, k, r);
    }
  }

  lemma NewRowsRecorded(associations: Associations, j: JobId, request: seq<Requested>)
    requires request != [] && Distinct(RevisionsOf(request)) && forall key | key in associations :: key.0 != j
    ensures RecordedFor(Associate(associations, j, request), j, request)
  {
    var after := Associate(associations, j, request);
    forall r
      ensures r in RevisionsOf(request) <==> (j, r) in after
    {
      AssociateEffect(associations, j, request, j, r);
    }
    forall i | 0 <= i < |request|
      ensures (j, RevisionsOf(request)[i]) in after
      ensures after[(j, RevisionsOf(request)[i])] == Association(Some(i), Some(request[i].diff))
    {
      AssociateEffect(associations, j, request, j, request[i].revision);
    }
  }

  lemma OldRowsKept(associations: Associations, j: JobId, request: seq<Requested>, k: JobId, earlier: seq<Requested>)
    requires Distinct(RevisionsOf(request)) && k != j && RecordedFor(associations, k, earlier)
    ensures RecordedFor(Associate(associations, j, request), k, earlier)
  {
    var after := Associate(associations, j, request);
    forall r
      ensures (k, r) in associations <==> (k, r) in after
      ensures (k, r) in associations ==> after[(k, r)] == associations[(k, r)]
    {
      AssociateEffect(associations, j, request, k, r);
    }
  }

  /** The second look finds the requested revisions that a job holds which is submitted or with the
      worker; what a deferred job holds it does not find. */
  lemma RecheckIff(st: State, path: seq<Requested>)
    ensures RecheckFails(st, path) <==>
      exists j, i | 0 <= i < |path| && (j, path[i].revision) in st.associations :: j in st.jobs && st.jobs[j].status in {Submitted, InProgress}
  {
    var revs := RevisionsOf(path);
    if RecheckFails(st, path) {
      var key :| key in st.associations && key.0 in st.jobs && st.jobs[key.0].status in {Submitted, InProgress} && key.1 in revs;
      var i :| 0 <= i < |path| && revs[i] == key.1;
      assert (key.0, path[i].revision) in st.associations;
    }
    forall j, i | 0 <= i < |path| && (j, path[i].revision) in st.associations && j in st.jobs && st.jobs[j].status in {Submitted, InProgress}
      ensures RecheckFails(st, path)
    {
      var key := (j, path[i].revision);
      assert revs[i] == key.1 && key in st.associations;
    }
  }

  /** A stack is taken exactly when a job that waits for the worker, or is with it, holds one of its
      revisions; jobs that have failed, landed or been cancelled leave their revisions free. */
  lemma TakenIff(st: State, stack: set<RevisionId>)
    ensures AlreadyRequested(st, stack) <==>
      exists j, r | (j, r) in st.associations && j in st.jobs && r in stack :: st.jobs[j].status in {Submitted, InProgress, Deferred}
    ensures (forall j, r | (j, r) in st.associations && j in st.jobs && r in stack :: st.jobs[j].status in {Failed, Landed, Cancelled}) ==>
      !AlreadyRequested(st, stack)
  {
    if AlreadyRequested(st, stack) {
      var key :| key in st.associations && key.0 in st.jobs && st.jobs[key.0].status.Active() && key.1 in stack;
      var j, r := key.0, key.1;
      assert (j, r) in st.associations && st.jobs[j].status in {Submitted, InProgress, Deferred};
    }
    forall j, r | (j, r) in st.associations && j in st.jobs && r in stack && st.jobs[j].status in {Submitted, InProgress, Deferred}
      ensures AlreadyRequested(st, stack)
    {
      var key := (j, r);
      assert key in st.associations;
    }
  }

  /** The assessment lets no revision through that an active job holds. */
  lemma NotRequestedTwice(st: State, step: Step, j: JobId, r: RevisionId)
    requires step.Submission? && Enabled(st, step)
    requires j in st.jobs && st.jobs[j].status.Active() && (j, r) in st.associations
    ensures r !in RevisionsOf(step.request)
  {
    var key := (j, r);
    assert key in st.associations;
  }

  lemma SubmissionBookkeeping(st: State, h: History, step: Step)
    requires Bookkeeping(st, h) && step.Submission? && Enabled(st, step)
    ensures Bookkeeping(Next(st, step), Record(h, st, step))
  {
    var st' := Next(st, step);
    forall key | key in st'.associations
      ensures key.0 in st'.jobs && key.1 in st'.revisions
    {
      AssociateEffect(st.associations, st.nextJob, step.request, key.0, key.1);
      RewriteEffect(st.revisions, step.request, key.1);
    }
  }

  lemma SubmissionRecorded(st: State, h: History, step: Step)
    requires Bookkeeping(st, h) && Recorded(st.associations, h.submitted) && step.Submission? && Enabled(st, step)
    ensures Recorded(Next(st, step).associations, Record(h, st, step).submitted)
  {
    hide RecordedFor, Associate;
    NewRowsRecorded(st.associations, st.nextJob, step.request);
    forall k | k in h.submitted
      ensures k != st.nextJob && RecordedFor(Next(st, step).associations, k, h.submitted[k])
    {
      OldRowsKept(st.associations, st.nextJob, step.request, k, h.submitted[k]);
    }
  }

  lemma SubmissionExclusive(st: State, h: History, step: Step)
    requires Bookkeeping(st, h) && Exclusive(st.jobs, st.associations) && step.Submission? && Enabled(st, step)
    ensures Exclusive(Next(st, step).jobs, Next(st, step).associations)
  {
    hide Associate;
    var st', request := Next(st, step), step.request;
    forall j, k, r |
      && j in st'.jobs && k in st'.jobs && st'.jobs[j].status.Active() && st'.jobs[k].status.Active()
      && (j, r) in st'.associations && (k, r) in st'.associations
      ensures j == k
    {
      AssociateEffect(st.associations, st.nextJob, request, j, r);
      AssociateEffect(st.associations, st.nextJob, request, k, r);
      if j != st.nextJob {
        NotRequestedTwice(st, step, j, r);
      }
      if k != st.nextJob {
        NotRequestedTwice(st, step, k, r);
      }
    }
  }

  lemma SubmissionPatches(st: State, h: History, step: Step)
    requires Bookkeeping(st, h) && Recorded(st.associations, h.submitted)
    requires PatchesStable(st.jobs, st.revisions, h.submitted) && step.Submission? && Enabled(st, step)
    ensures PatchesStable(Next(st, step).jobs, Next(st, step).revisions, Record(h, st, step).submitted)
  {
    hide Associate, Rewrite;
    var st', h', request := Next(st, step), Record(h, st, step), step.request;
    forall j, i | j in st'.jobs && j in h'.submitted && st'.jobs[j].status.Active() && 0 <= i < |h'.submitted[j]|
      ensures StoredAs(st'.revisions, h'.submitted[j][i])
    {
      var p := h'.submitted[j][i];
      RewriteEffect(st.revisions, request, p.revision);
      if j != st.nextJob {
        assert RecordedFor(st.associations, j, h.submitted[j]) && StoredAs(st.revisions, p);
        assert RevisionsOf(h.submitted[j])[i] == p.revision;
        NotRequestedTwice(st, step, j, p.revision);
      }
    }
  }

  lemma {:induction false} CountZero(ledger: seq<Entry>, j: JobId)
    requires forall i | 0 <= i < |ledger| && ledger[i].LandedBlock? :: ledger[i].job != j
    ensures Count(ledger, j) == 0
    decreases |ledger|
  {
    if ledger != [] {
      CountZero(ledger[..|ledger| - 1], j);
    }
  }

  lemma NewJobHasNoBlock(jobs: Jobs, submitted: Requests, ledger: Ledger, j: JobId, job: Job, request: seq<Requested>)
    requires BlocksMatchJobs(jobs, submitted, ledger) && j !in jobs && job.repo in ledger && job.status == Submitted
    ensures BlocksMatchJobs(jobs[j := job], submitted[j := request], ledger)
  {
    hide IsBlockOf, Count;
    forall repo | repo in ledger
      ensures BlocksAreOfJobs(jobs[j := job], submitted[j := request], repo, ledger[repo])
    {
      assert BlocksAreOfJobs(jobs, submitted, repo, ledger[repo]);
      forall i | 0 <= i < |ledger[repo]| && ledger[repo][i].LandedBlock?
        ensures BlockOf(jobs[j := job], submitted[j := request], repo, ledger[repo][i])
      {
        assert BlockOf(jobs, submitted, repo, ledger[repo][i]);
      }
    }
    assert BlocksAreOfJobs(jobs, submitted, job.repo, ledger[job.repo]);
    CountZero(ledger[job.repo], j);
  }

  // ---------------------------------------------------------------------------
  // Running
  // ---------------------------------------------------------------------------

  lemma SortedPathUnique(associations: Associations, j: JobId, p: seq<RevisionId>, q: seq<RevisionId>)
    requires IsSortedPath(associations, j, p) && IsSortedPath(associations, j, q)
    ensures p == q
  {
    SortedPathPrefix(associations, j, p, q);
    SortedPathPrefix(associations, j, q, p);
  }

  lemma SortedPathPrefix(associations: Associations, j: JobId, p: seq<RevisionId>, q: seq<RevisionId>)
    requires IsSortedPath(associations, j, p) && IsSortedPath(associations, j, q)
    ensures p <= q
  {
    forall i | 0 <= i < |p|
      ensures i < |q| && p[i] == q[i]
    {
      assert p[i] in p;
      var r := p[i];
      assert (j, r) in associations;
      assert r in q;
      var k :| 0 <= k < |q| && q[k] == p[i];
      assert associations[(j, q[k])].index == Some(k);
    }
    if p != [] {
      var last := |p| - 1;
      assert p[last] in p;
      assert last < |q| && p[last] == q[last];
    }
  }

  lemma RunsWhatWasRequested(st: State, h: History, step: Step)
    requires Bookkeeping(st, h) && Recorded(st.associations, h.submitted)
    requires PatchesStable(st.jobs, st.revisions, h.submitted) && step.Running? && Enabled(st, step)
    ensures step.path == RevisionsOf(h.submitted[st.running.value])
    ensures PatchesOf(st.revisions, step.path) == PatchesRequested(h.submitted[st.running.value])
  {
    var j := st.running.value;
    assert RecordedFor(st.associations, j, h.submitted[j]);
    SortedPathUnique(st.associations, j, step.path, RevisionsOf(h.submitted[j]));
    forall i | 0 <= i < |step.path|
      ensures st.revisions[step.path[i]].patch == h.submitted[j][i].patch
    {
      assert StoredAs(st.revisions, h.submitted[j][i]);
    }
  }

  lemma AttemptAccounted(first: map<RepoName, seq<Commit>>, remotes: map<RepoName, seq<Commit>>, clones: map<RepoName, Clone>,
                         ledger: Ledger, repo: RepoName, e: Entry, remote: seq<Commit>, clone: Clone)
    requires RemotesAccounted(first, remotes, clones, ledger) && repo in remotes && repo in clones
    requires remote == remotes[repo] + e.commits && clone.published <= remote
    ensures RemotesAccounted(first, remotes[repo := remote], clones[repo := clone], Append(ledger, repo, e))
  {
    hide Flatten;
    LedgerSnoc(ledger[repo], e, 0);
    assert first[repo] + Flatten(ledger[repo]) + e.commits == first[repo] + (Flatten(ledger[repo]) + e.commits);
  }

  lemma {:induction false} CountPositive(ledger: seq<Entry>, i: nat)
    requires i < |ledger| && ledger[i].LandedBlock?
    ensures Count(ledger, ledger[i].job) >= 1
    decreases |ledger|
  {
    if i < |ledger| - 1 {
      CountPositive(ledger[..|ledger| - 1], i);
    }
  }

  /** Changing a job that has not landed, and recording what it contributed. */
  lemma JobContributes(jobs: Jobs, submitted: Requests, ledger: Ledger, j: JobId, job: Job, e: Entry)
    requires BlocksMatchJobs(jobs, submitted, ledger) && j in jobs && jobs[j].status != Landed && job.repo == jobs[j].repo
    requires e.LandedBlock? <==> job.status == Landed
    requires e.LandedBlock? ==> e.job == j && BlockOf(jobs[j := job], submitted, job.repo, e)
    ensures BlocksMatchJobs(jobs[j := job], submitted, Append(ledger, job.repo, e))
  {
    hide IsBlockOf, Count;
    var jobs', ledger' := jobs[j := job], Append(ledger, job.repo, e);
    forall repo | repo in ledger'
      ensures BlocksAreOfJobs(jobs', submitted, repo, ledger'[repo])
    {
      assert BlocksAreOfJobs(jobs, submitted, repo, ledger[repo]);
      forall i | 0 <= i < |ledger'[repo]| && ledger'[repo][i].LandedBlock?
        ensures BlockOf(jobs', submitted, repo, ledger'[repo][i])
      {
        if i < |ledger[repo]| {
          assert BlockOf(jobs, submitted, repo, ledger[repo][i]);
        }
      }
    }
    forall k | k in jobs'
      ensures Count(ledger'[jobs'[k].repo], k) == if jobs'[k].status == Landed then 1 else 0
    {
      LedgerSnoc(ledger[job.repo], e, k);
    }
  }

  lemma RunningContributes(st: State, h: History, step: Step)
    requires Bookkeeping(st, h) && Recorded(st.associations, h.submitted)
    requires PatchesStable(st.jobs, st.revisions, h.submitted) && BlocksMatchJobs(st.jobs, h.submitted, h.ledger)
    requires step.Running? && Enabled(st, step)
    ensures BlocksMatchJobs(Next(st, step).jobs, Record(h, st, step).submitted, Record(h, st, step).ledger)
  {
    hide Recorded, PatchesStable, BlocksMatchJobs, Try, Block, IsSortedPath;
    var j := st.running.value;
    var repo := st.jobs[j].repo;
    RunsWhatWasRequested(st, h, step);
    var patches := PatchesOf(st.revisions, step.path);
    TryEffect(st.clones[repo], st.remotes[repo], j, patches, step.weather);
    BlockIsBlock(patches, step.weather);
    var a := AttemptOf(st, step.path, step.weather);
    JobContributes(st.jobs, h.submitted, h.ledger, j, Conclude(st.jobs[j], a.verdict), Contribution(j, patches, step.weather));
  }

  lemma RunningAccounted(first: map<RepoName, seq<Commit>>, st: State, h: History, step: Step)
    requires Bookkeeping(st, h) && RemotesAccounted(first, st.remotes, st.clones, h.ledger)
    requires step.Running? && Enabled(st, step)
    ensures RemotesAccounted(first, Next(st, step).remotes, Next(st, step).clones, Record(h, st, step).ledger)
  {
    hide Try, IsSortedPath;
    var j := st.running.value;
    var repo := st.jobs[j].repo;
    var patches := PatchesOf(st.revisions, step.path);
    TryEffect(st.clones[repo], st.remotes[repo], j, patches, step.weather);
    var a := AttemptOf(st, step.path, step.weather);
    var e := Contribution(j, patches, step.weather);
    AttemptAccounted(first, st.remotes, st.clones, h.ledger, repo, e, a.remote, a.clone);
  }

  // ---------------------------------------------------------------------------
  // All steps
  // ---------------------------------------------------------------------------

  /** Apart from submission, no step changes rows of revisions or of associations. */
  lemma StepRows(st: State, h: History, step: Step)
    requires Bookkeeping(st, h) && Enabled(st, step) && !step.Submission?
    ensures Record(h, st, step).submitted == h.submitted
    ensures Next(st, step).associations == st.associations && Next(st, step).revisions == st.revisions
  {
    hide Try, IsSortedPath, Conclude, IsNext, Bookkeeping;
  }

  /** Apart from submission, no step makes a job active. */
  lemma StepActive(st: State, h: History, step: Step)
    requires Bookkeeping(st, h) && Enabled(st, step) && !step.Submission?
    ensures Next(st, step).jobs.Keys == st.jobs.Keys
    ensures forall j | j in st.jobs :: Next(st, step).jobs[j].status.Active() ==> st.jobs[j].status.Active()
  {
    hide Try, IsSortedPath;
  }

  lemma StepKeys(st: State, h: History, step: Step)
    requires Bookkeeping(st, h) && Enabled(st, step) && !step.Submission?
    ensures Next(st, step).remotes.Keys == st.remotes.Keys && Next(st, step).clones.Keys == st.clones.Keys
    ensures Next(st, step).nextJob == st.nextJob
    ensures Record(h, st, step).conversions.Keys == h.conversions.Keys && Record(h, st, step).ledger.Keys == h.ledger.Keys
  {
    hide Try, IsSortedPath, Contribution, Conclude, IsNext;
  }

  lemma StepRunning(st: State, step: Step)
    requires Enabled(st, step) && Next(st, step).running.Some?
    requires st.running.Some? ==> st.running.value in st.jobs && st.jobs[st.running.value].status == InProgress
    requires forall j | j in st.jobs :: j < st.nextJob
    ensures var j := Next(st, step).running.value;
      j in Next(st, step).jobs && Next(st, step).jobs[j].status == InProgress
  {
    hide IsSortedPath, Conclude, IsNext, AttemptOf;
    match step
    case Claim(_, _, _) => NextIsJob(st, step);
    case _ =>
  }

  lemma NextIsJob(st: State, step: Step)
    requires Enabled(st, step) && step.Claim?
    ensures step.job in st.jobs && st.jobs[step.job].status.Active()
  {
  }

  lemma StepBookkeeping(st: State, h: History, step: Step)
    requires Bookkeeping(st, h) && Enabled(st, step) && !step.Submission?
    ensures Bookkeeping(Next(st, step), Record(h, st, step))
  {
    hide Next, Enabled, Record;
    StepRows(st, h, step);
    StepKeys(st, h, step);
    StepActive(st, h, step);
    if Next(st, step).running.Some? {
      StepRunning(st, step);
    }
    forall j | j in st.jobs
      ensures Next(st, step).jobs[j].repo == st.jobs[j].repo
    {
      StatusChanges(st, step, j);
    }
  }

  /** A run counts a conversion failure only while fewer than five attempts were made. */
  lemma RunConversions(jobs: Jobs, conversions: map<JobId, nat>, j: JobId, verdict: Verdict)
    requires j in jobs && j in conversions && ConversionsBounded(jobs, Some(j), conversions)
    ensures var job := Conclude(jobs[j], verdict);
      var counted := verdict == ConversionFails && job.status == Deferred;
      ConversionsBounded(jobs[j := job], None, conversions[j := conversions[j] + if counted then 1 else 0])
  {
  }

  lemma ClaimConversions(jobs: Jobs, conversions: map<JobId, nat>, j: JobId)
    requires j in jobs && ConversionsBounded(jobs, None, conversions)
    ensures ConversionsBounded(jobs[j := jobs[j].(status := InProgress, attempts := jobs[j].attempts + 1)], Some(j), conversions)
  {
  }

  lemma RunningConversions(st: State, h: History, step: Step)
    requires Bookkeeping(st, h) && ConversionsBounded(st.jobs, st.running, h.conversions) && Enabled(st, step) && step.Running?
    ensures ConversionsBounded(Next(st, step).jobs, Next(st, step).running, Record(h, st, step).conversions)
  {
    hide Conclude, AttemptOf, IsSortedPath, Contribution, ConversionsBounded;
    RunConversions(st.jobs, h.conversions, st.running.value, AttemptOf(st, step.path, step.weather).verdict);
  }

  lemma StepConversions(st: State, h: History, step: Step)
    requires Bookkeeping(st, h) && ConversionsBounded(st.jobs, st.running, h.conversions) && Enabled(st, step)
    ensures ConversionsBounded(Next(st, step).jobs, Next(st, step).running, Record(h, st, step).conversions)
  {
    hide Run, AttemptOf, IsNext, Contribution, Append, Associate, Rewrite;
    if step.Running? {
      hide Next, Record, Enabled;
      RunningConversions(st, h, step);
    } else if step.Claim? {
      hide ConversionsBounded;
      NextIsJob(st, step);
      ClaimConversions(st.jobs, h.conversions, step.job);
    }
  }

  lemma StepBlocks(st: State, h: History, step: Step)
    requires Bookkeeping(st, h) && Recorded(st.associations, h.submitted)
    requires PatchesStable(st.jobs, st.revisions, h.submitted) && BlocksMatchJobs(st.jobs, h.submitted, h.ledger)
    requires Enabled(st, step)
    ensures BlocksMatchJobs(Next(st, step).jobs, Record(h, st, step).submitted, Record(h, st, step).ledger)
  {
    hide Recorded, PatchesStable, BlocksMatchJobs, IsSortedPath, Try;
    match step
    case Submission(_, request, repo, requester, priority) =>
      NewJobHasNoBlock(st.jobs, h.submitted, h.ledger, st.nextJob, Next(st, step).jobs[st.nextJob], request);
    case Running(_, _) => RunningContributes(st, h, step);
    case Claim(j, _, _) => WaitingJobChanges(st.jobs, h.submitted, h.ledger, j, Next(st, step).jobs[j]);
    case Cancellation(j) => WaitingJobChanges(st.jobs, h.submitted, h.ledger, j, Next(st, step).jobs[j]);
    case OtherPush(repo, commits) => OthersContribute(st.jobs, h.submitted, h.ledger, repo, commits);
    case _ =>
  }

  lemma WaitingJobChanges(jobs: Jobs, submitted: Requests, ledger: Ledger, j: JobId, job: Job)
    requires BlocksMatchJobs(jobs, submitted, ledger) && j in jobs && job.repo == jobs[j].repo
    requires jobs[j].status != Landed && job.status != Landed
    ensures BlocksMatchJobs(jobs[j := job], submitted, ledger)
  {
    hide IsBlockOf, Count;
    forall repo | repo in ledger
      ensures BlocksAreOfJobs(jobs[j := job], submitted, repo, ledger[repo])
    {
      assert BlocksAreOfJobs(jobs, submitted, repo, ledger[repo]);
      forall i | 0 <= i < |ledger[repo]| && ledger[repo][i].LandedBlock?
        ensures BlockOf(jobs[j := job], submitted, repo, ledger[repo][i])
      {
        assert BlockOf(jobs, submitted, repo, ledger[repo][i]);
      }
    }
  }

  lemma OthersContribute(jobs: Jobs, submitted: Requests, ledger: Ledger, repo: RepoName, commits: seq<Commit>)
    requires BlocksMatchJobs(jobs, submitted, ledger) && repo in ledger
    ensures BlocksMatchJobs(jobs, submitted, Append(ledger, repo, Others(commits)))
  {
    hide IsBlockOf, Count;
    var ledger' := Append(ledger, repo, Others(commits));
    forall r | r in ledger'
      ensures BlocksAreOfJobs(jobs, submitted, r, ledger'[r])
    {
      assert BlocksAreOfJobs(jobs, submitted, r, ledger[r]);
    }
    forall j | j in jobs
      ensures Count(ledger'[jobs[j].repo], j) == Count(ledger[jobs[j].repo], j)
    {
      LedgerSnoc(ledger[repo], Others(commits), j);
    }
  }

  lemma OthersAccounted(first: map<RepoName, seq<Commit>>, remotes: map<RepoName, seq<Commit>>, clones: map<RepoName, Clone>,
                        ledger: Ledger, repo: RepoName, e: Entry)
    requires RemotesAccounted(first, remotes, clones, ledger) && repo in remotes
    ensures RemotesAccounted(first, remotes[repo := remotes[repo] + e.commits], clones, Append(ledger, repo, e))
  {
    hide Flatten;
    LedgerSnoc(ledger[repo], e, 0);
    assert repo in clones ==> clones[repo].published <= remotes[repo] <= remotes[repo] + e.commits;
    assert first[repo] + Flatten(ledger[repo]) + e.commits == first[repo] + (Flatten(ledger[repo]) + e.commits);
  }

  lemma StepAccounted(first: map<RepoName, seq<Commit>>, st: State, h: History, step: Step)
    requires Bookkeeping(st, h) && RemotesAccounted(first, st.remotes, st.clones, h.ledger) && Enabled(st, step)
    ensures RemotesAccounted(first, Next(st, step).remotes, Next(st, step).clones, Record(h, st, step).ledger)
  {
    hide IsSortedPath, Run, AttemptOf, IsNext, Contribution, Flatten, Submit, Conclude;
    if step.Running? {
      hide Next, Record, Enabled, RemotesAccounted;
      RunningAccounted(first, st, h, step);
    } else if step.OtherPush? {
      OthersAccounted(first, st.remotes, st.clones, h.ledger, step.repo, Others(step.commits));
    } else if step.Submission? {
      SubmissionFrame(st, step);
    }
  }

  lemma SubmissionFrame(st: State, step: Step)
    requires step.Submission? && Enabled(st, step)
    ensures Next(st, step).remotes == st.remotes && Next(st, step).clones == st.clones
  {
  }

  lemma StepKeepsInv(first: map<RepoName, seq<Commit>>, st: State, h: History, step: Step)
    requires Inv(first, st, h) && Enabled(st, step)
    ensures Inv(first, Next(st, step), Record(h, st, step))
  {
    hide Recorded, PatchesStable, RemotesAccounted, BlocksMatchJobs, ConversionsBounded, Enabled, Next, Record;
    StepAccounted(first, st, h, step);
    StepBlocks(st, h, step);
    StepConversions(st, h, step);
    if step.Submission? {
      SubmissionBookkeeping(st, h, step);
      SubmissionRecorded(st, h, step);
      SubmissionExclusive(st, h, step);
      SubmissionPatches(st, h, step);
    } else {
      StepRows(st, h, step);
      StepActive(st, h, step);
      StepBookkeeping(st, h, step);
      FewerActive(st.jobs, Next(st, step).jobs, st.associations, st.revisions, h.submitted);
    }
  }

  lemma FewerActive(jobs: Jobs, jobs': Jobs, associations: Associations, revisions: map<RevisionId, Revision>, submitted: Requests)
    requires jobs'.Keys == jobs.Keys && forall j | j in jobs :: jobs'[j].status.Active() ==> jobs[j].status.Active()
    requires Exclusive(jobs, associations) && PatchesStable(jobs, revisions, submitted)
    ensures Exclusive(jobs', associations) && PatchesStable(jobs', revisions, submitted)
  {
  }

  // ---------------------------------------------------------------------------
  // Executions
  // ---------------------------------------------------------------------------

  function NoHistory(st: State): History {
    History(map[], map repo | repo in st.remotes :: [], map[])
  }

  /** `hs` records an execution step by step. */
  ghost predicate IsHistory(run: seq<State>, steps: seq<Step>, hs: seq<History>)
    requires IsExecution(run, steps)
  {
    && |hs| == |run| && hs[0] == NoHistory(run[0])
    && (forall i | 0 <= i < |steps| :: Bookkeeping(run[i], hs[i]) && hs[i + 1] == Record(hs[i], run[i], steps[i]))
  }

  lemma StepOf(run: seq<State>, steps: seq<Step>, n: nat)
    requires IsExecution(run, steps) && n + 1 < |run|
    ensures n < |steps| && Enabled(run[n], steps[n]) && run[n + 1] == Next(run[n], steps[n])
  {
    hide Enabled, Next;
  }

  lemma InitialInv(run: seq<State>, steps: seq<Step>)
    requires IsExecution(run, steps)
    ensures Inv(run[0].remotes, run[0], NoHistory(run[0]))
  {
    hide Enabled, Next;
    var st := run[0];
    assert forall repo | repo in st.remotes :: Flatten(NoHistory(st).ledger[repo]) == [];
  }

  lemma {:induction false} HistoryOf(run: seq<State>, steps: seq<Step>, n: nat) returns (hs: seq<History>)
    requires IsExecution(run, steps) && n < |run|
    ensures |hs| == n + 1 && hs[0] == NoHistory(run[0])
    ensures forall i | 0 <= i <= n :: Inv(run[0].remotes, run[i], hs[i])
    ensures forall i | 0 <= i < n :: Bookkeeping(run[i], hs[i]) && hs[i + 1] == Record(hs[i], run[i], steps[i])
    decreases n
  {
    hide Next, Record, Enabled, NoHistory, IsExecution, Exclusive, Recorded, PatchesStable, RemotesAccounted, BlocksMatchJobs, Bookkeeping;
    if n == 0 {
      hs := [NoHistory(run[0])];
      InitialInv(run, steps);
    } else {
      var init := HistoryOf(run, steps, n - 1);
      StepOf(run, steps, n - 1);
      Recordable(run[0].remotes, run[n - 1], init[n - 1]);
      StepKeepsInv(run[0].remotes, run[n - 1], init[n - 1], steps[n - 1]);
      hs := init + [Record(init[n - 1], run[n - 1], steps[n - 1])];
    }
  }

  lemma Recordable(first: map<RepoName, seq<Commit>>, st: State, h: History)
    requires Inv(first, st, h)
    ensures Bookkeeping(st, h) && h.ledger.Keys == st.remotes.Keys && h.conversions.Keys == st.jobs.Keys
  {
  }

  /** What others push to a repository in one step, on their own or while a job is on its way. */
  ghost function OutsideIn(st: State, step: Step, repo: RepoName): seq<Commit> {
    match step
    case OtherPush(r, commits) => if r == repo then commits else []
    case Running(path, w) =>
      if st.running.Some? && st.running.value in st.jobs && st.jobs[st.running.value].repo == repo
      then OutsideDuring(|path|, w) else []
    case _ => []
  }

  /** What others pushed to a repository in the first `n` steps of an execution. */
  ghost function Outside(run: seq<State>, steps: seq<Step>, n: nat, repo: RepoName): seq<Commit>
    requires n <= |steps| < |run|
    decreases n
  {
    if n == 0 then [] else Outside(run, steps, n - 1, repo) + OutsideIn(run[n - 1], steps[n - 1], repo)
  }

  lemma StepOutside(st: State, h: History, step: Step, repo: RepoName)
    requires Bookkeeping(st, h) && Enabled(st, step) && repo in h.ledger
    ensures repo in Record(h, st, step).ledger
    ensures OthersOf(Record(h, st, step).ledger[repo]) == OthersOf(h.ledger[repo]) + OutsideIn(st, step, repo)
  {
    hide Try, IsSortedPath, IsNext, Conclude, OthersOf, Block;
    match step
    case OtherPush(r, commits) => LedgerSnoc(h.ledger[r], Others(commits), 0);
    case Running(path, w) =>
      var j := st.running.value;
      LedgerSnoc(h.ledger[st.jobs[j].repo], Contribution(j, PatchesOf(st.revisions, path), w), 0);
    case _ =>
  }

  lemma {:induction false} OutsideRecorded(run: seq<State>, steps: seq<Step>, hs: seq<History>, n: nat, repo: RepoName)
    requires IsExecution(run, steps) && IsHistory(run, steps, hs) && n < |run| && repo in run[0].remotes
    ensures repo in hs[n].ledger && OthersOf(hs[n].ledger[repo]) == Outside(run, steps, n, repo)
    decreases n
  {
    if n == 0 {
      hide Record;
    } else {
      HistoryStep(run, steps, hs, n - 1);
      assert |run| == |steps| + 1;
      hide IsExecution, IsHistory, Record, OutsideIn, OthersOf, Next, Enabled, Bookkeeping;
      OutsideRecorded(run, steps, hs, n - 1, repo);
      StepOutside(run[n - 1], hs[n - 1], steps[n - 1], repo);
    }
  }

  lemma HistoryStep(run: seq<State>, steps: seq<Step>, hs: seq<History>, n: nat)
    requires IsExecution(run, steps) && IsHistory(run, steps, hs) && n < |steps|
    ensures n + 1 < |hs| == |run|
    ensures Enabled(run[n], steps[n]) && Bookkeeping(run[n], hs[n]) && hs[n + 1] == Record(hs[n], run[n], steps[n])
  {
    StepOf(run, steps, n);
    hide Enabled, Next, Record, Bookkeeping;
  }

  /** Every execution has a history, and the invariants hold throughout. In particular, at every
      point each remote repository is its initial content followed by exactly one block for each
      landed job, made of the patches it was submitted with, in their order, and, between the
      blocks, exactly what others pushed, in its order; and no two active jobs hold the same
      revision. */
  lemma ExecutionInvariants(run: seq<State>, steps: seq<Step>) returns (hs: seq<History>)
    requires IsExecution(run, steps)
    ensures IsHistory(run, steps, hs)
    ensures forall n | 0 <= n < |run| :: Inv(run[0].remotes, run[n], hs[n])
    ensures forall n, repo | 0 <= n < |run| && repo in run[0].remotes ::
      repo in hs[n].ledger && OthersOf(hs[n].ledger[repo]) == Outside(run, steps, n, repo)
  {
    hide Inv, Record, Next, Enabled;
    hs := HistoryOf(run, steps, |steps|);
    assert forall i | 0 <= i < |steps| :: Bookkeeping(run[i], hs[i]);
    assert IsHistory(run, steps, hs);
    hide *;
    forall n, repo | 0 <= n < |run| && repo in run[0].remotes
      ensures repo in hs[n].ledger && OthersOf(hs[n].ledger[repo]) == Outside(run, steps, n, repo)
    {
      OutsideRecorded(run, steps, hs, n, repo);
    }
  }

  lemma StateFacts(run: seq<State>, steps: seq<Step>, n: nat)
    requires IsExecution(run, steps) && n < |run|
    ensures run[n].running.Some? ==> run[n].running.value in run[n].jobs && run[n].jobs[run[n].running.value].status == InProgress
    ensures forall k | k in run[n].jobs :: k < run[n].nextJob
  {
    var hs := ExecutionInvariants(run, steps);
    assert Inv(run[0].remotes, run[n], hs[n]);
  }

  /** Final statuses stay final through the rest of an execution. */
  lemma {:induction false} FinalForever(run: seq<State>, steps: seq<Step>, j: JobId, i: nat, n: nat)
    requires IsExecution(run, steps) && i <= n < |run|
    requires j in run[i].jobs && run[i].jobs[j].status.Final()
    ensures j in run[n].jobs && run[n].jobs[j] == run[i].jobs[j]
    decreases n
  {
    hide Next, Enabled, IsExecution;
    if i < n {
      FinalForever(run, steps, j, i, n - 1);
      StateFacts(run, steps, n - 1);
      StepOf(run, steps, n - 1);
      StatusChanges(run[n - 1], steps[n - 1], j);
    }
  }

  lemma StepKeepsAssociations(st: State, step: Step, j: JobId, r: RevisionId)
    requires Enabled(st, step) && j < st.nextJob
    ensures (j, r) in Next(st, step).associations <==> (j, r) in st.associations
    ensures (j, r) in st.associations ==> Next(st, step).associations[(j, r)] == st.associations[(j, r)]
    ensures st.nextJob <= Next(st, step).nextJob
  {
    hide Associate, Rewrite, Try, IsSortedPath;
    if step.Submission? {
      AssociateEffect(st.associations, st.nextJob, step.request, j, r);
    }
  }

  /** The diffs recorded for a job never change once it is submitted. */
  lemma {:induction false} RecordedDiffsFrozen(run: seq<State>, steps: seq<Step>, j: JobId, r: RevisionId, i: nat, n: nat)
    requires IsExecution(run, steps) && i <= n < |run| && j < run[i].nextJob
    ensures j < run[n].nextJob
    ensures (j, r) in run[n].associations <==> (j, r) in run[i].associations
    ensures (j, r) in run[i].associations ==> run[n].associations[(j, r)] == run[i].associations[(j, r)]
    decreases n
  {
    hide Next, Enabled, IsExecution;
    if i < n {
      RecordedDiffsFrozen(run, steps, j, r, i, n - 1);
      StepOf(run, steps, n - 1);
      StepKeepsAssociations(run[n - 1], steps[n - 1], j, r);
    }
  }

  lemma ActiveBefore(st: State, step: Step, j: JobId)
    requires Enabled(st, step) && j in st.jobs && (forall k | k in st.jobs :: k < st.nextJob)
    requires st.running.Some? ==> st.running.value in st.jobs && st.jobs[st.running.value].status == InProgress
    requires Next(st, step).jobs[j].status.Active()
    ensures st.jobs[j].status.Active()
  {
    StatusChanges(st, step, j);
  }

  /** The stored diff and patch of a revision do not change while a job that holds it is active. */
  lemma HeldRevisionFrozen(run: seq<State>, steps: seq<Step>, j: JobId, r: RevisionId, n: nat)
    requires IsExecution(run, steps) && n < |steps|
    requires j in run[n].jobs && (j, r) in run[n].associations
    requires j in run[n + 1].jobs && run[n + 1].jobs[j].status.Active()
    ensures r in run[n].revisions && r in run[n + 1].revisions && run[n + 1].revisions[r] == run[n].revisions[r]
  {
    var hs := ExecutionInvariants(run, steps);
    var st, step := run[n], steps[n];
    assert Inv(run[0].remotes, st, hs[n]) && run[n + 1] == Next(st, step);
    hide Next, Record, Enabled, BlocksMatchJobs, RemotesAccounted;
    assert Enabled(st, step);
    ActiveBefore(st, step, j);
    var key := (j, r);
    assert key in st.associations;
    if step.Submission? {
      NotRequestedTwice(st, step, j, r);
      SubmissionRewrites(st, step, r);
    } else {
      StepRows(st, hs[n], step);
    }
  }

  lemma SubmissionRewrites(st: State, step: Step, r: RevisionId)
    requires step.Submission? && Enabled(st, step) && r !in RevisionsOf(step.request) && r in st.revisions
    ensures r in Next(st, step).revisions && Next(st, step).revisions[r] == st.revisions[r]
  {
    RewriteEffect(st.revisions, step.request, r);
  }

  lemma {:induction false} JobsStay(run: seq<State>, steps: seq<Step>, j: JobId, i: nat, n: nat)
    requires IsExecution(run, steps) && i <= n < |run| && j in run[i].jobs
    ensures j in run[n].jobs
    decreases n
  {
    hide *;
    if i < n {
      JobsStay(run, steps, j, i, n - 1);
      StateFacts(run, steps, n - 1);
      StepOf(run, steps, n - 1);
      StatusChanges(run[n - 1], steps[n - 1], j);
    }
  }

  lemma HeldRevisionStored(run: seq<State>, steps: seq<Step>, j: JobId, r: RevisionId, n: nat)
    requires IsExecution(run, steps) && n < |run| && (j, r) in run[n].associations
    ensures r in run[n].revisions && j < run[n].nextJob
  {
    var hs := ExecutionInvariants(run, steps);
    assert Inv(run[0].remotes, run[n], hs[n]);
    var key := (j, r);
    assert key in run[n].associations;
  }

  /** From any point of an execution at which a job holds a revision to any later one at which the
      job is still active, the stored diff and patch of the revision are the same. */
  lemma {:induction false} HeldRevisionStable(run: seq<State>, steps: seq<Step>, j: JobId, r: RevisionId, i: nat, n: nat)
    requires IsExecution(run, steps) && i <= n < |run|
    requires j in run[i].jobs && (j, r) in run[i].associations
    requires j in run[n].jobs && run[n].jobs[j].status.Active()
    ensures r in run[i].revisions && r in run[n].revisions && run[n].revisions[r] == run[i].revisions[r]
    decreases n
  {
    hide *;
    HeldRevisionStored(run, steps, j, r, i);
    if i < n {
      StepOf(run, steps, n - 1);
      JobsStay(run, steps, j, i, n - 1);
      StateFacts(run, steps, n - 1);
      ActiveBefore(run[n - 1], steps[n - 1], j);
      RecordedDiffsFrozen(run, steps, j, r, i, n - 1);
      HeldRevisionFrozen(run, steps, j, r, n - 1);
      HeldRevisionStable(run, steps, j, r, i, n - 1);
    }
  }

  lemma RunAdds(st: State, h: History, step: Step)
    requires Bookkeeping(st, h) && Recorded(st.associations, h.submitted)
    requires PatchesStable(st.jobs, st.revisions, h.submitted) && step.Running? && Enabled(st, step)
    ensures var j := st.running.value;
      var repo, patches := st.jobs[j].repo, PatchesRequested(h.submitted[j]);
      && Next(st, step).remotes[repo] == st.remotes[repo] + Contribution(j, patches, step.weather).commits
      && (Next(st, step).jobs[j].status == Landed <==> CanLand(|patches|, step.weather))
  {
    RunsWhatWasRequested(st, h, step);
    hide Recorded, PatchesStable, Try, Contribution, IsSortedPath, CanLand;
    var j := st.running.value;
    var repo, patches := st.jobs[j].repo, PatchesRequested(h.submitted[j]);
    TryEffect(st.clones[repo], st.remotes[repo], j, patches, step.weather);
    ContributionKind(j, patches, step.weather);
  }

  lemma ContributionKind(j: JobId, patches: seq<Patch>, w: Weather)
    ensures Contribution(j, patches, w).LandedBlock? <==> CanLand(|patches|, w)
  {
    hide CanLand;
  }

  /** What the run of a job does to its remote repository, in any execution: the job lands exactly
      when it can, and then the remote gains exactly the block of the patches it was submitted with;
      otherwise the remote gains nothing but what others pushed meanwhile. */
  lemma RunPublishes(run: seq<State>, steps: seq<Step>, n: nat) returns (j: JobId, request: seq<Requested>)
    requires IsExecution(run, steps) && n < |steps| && steps[n].Running?
    ensures run[n].running == Some(j) && j in run[n].jobs && j in run[n + 1].jobs
    ensures RecordedFor(run[n].associations, j, request)
    ensures run[n + 1].jobs[j].status == Landed <==> CanLand(|request|, steps[n].weather)
    ensures var repo, w := run[n].jobs[j].repo, steps[n].weather;
      && repo in run[n].remotes && repo in run[n + 1].remotes
      && run[n].remotes[repo] <= run[n + 1].remotes[repo]
      && var added := run[n + 1].remotes[repo][|run[n].remotes[repo]|..];
        if CanLand(|request|, w) then IsBlockOf(added, PatchesRequested(request), w) else added == OutsideDuring(|request|, w)
  {
    var hs := ExecutionInvariants(run, steps);
    var st, h, step := run[n], hs[n], steps[n];
    assert Inv(run[0].remotes, st, h);
    hide Try, Block, BlocksMatchJobs, RemotesAccounted, IsExecution, Exclusive, PatchesStable, ConversionsBounded, CanLand, OutsideDuring, RecordedFor;
    StepOf(run, steps, n);
    j := st.running.value;
    request := h.submitted[j];
    RunAdds(st, h, step);
    BlockIsBlock(PatchesRequested(request), step.weather);
    hide IsBlockOf;
    var repo := st.jobs[j].repo;
    var e := Contribution(j, PatchesRequested(request), step.weather);
    assert (st.remotes[repo] + e.commits)[|st.remotes[repo]|..] == e.commits;
  }

  // ---------------------------------------------------------------------------
  // Where the guarantees end
  // ---------------------------------------------------------------------------

  ghost predicate DeferredHolds(st: State, request: seq<Requested>) {
    exists key | key in st.associations ::
      key.0 in st.jobs && st.jobs[key.0].status == Deferred && key.1 in RevisionsOf(request)
  }

  /** If a job is inserted on the strength of the second look alone, its assessment being out of
      date, no revision ends up held twice exactly when no deferred job holds a requested one. */
  lemma RecheckExact(st: State, h: History, stack: set<RevisionId>, request: seq<Requested>, repo: RepoName, requester: string, priority: int)
    requires Bookkeeping(st, h) && Exclusive(st.jobs, st.associations)
    requires IsRequest(request, stack) && !RecheckFails(st, request)
    ensures var st' := Submit(st, request, repo, requester, priority);
      Exclusive(st'.jobs, st'.associations) <==> !DeferredHolds(st, request)
  {
    hide Associate;
    var st' := Submit(st, request, repo, requester, priority);
    var new' := st.nextJob;
    if DeferredHolds(st, request) {
      var key :| key in st.associations && key.0 in st.jobs && st.jobs[key.0].status == Deferred && key.1 in RevisionsOf(request);
      AssociateEffect(st.associations, new', request, key.0, key.1);
      AssociateEffect(st.associations, new', request, new', key.1);
      assert (key.0, key.1) in st'.associations && (new', key.1) in st'.associations;
    } else {
      forall j, k, r |
        && j in st'.jobs && k in st'.jobs && st'.jobs[j].status.Active() && st'.jobs[k].status.Active()
        && (j, r) in st'.associations && (k, r) in st'.associations
        ensures j == k
      {
        AssociateEffect(st.associations, new', request, j, r);
        AssociateEffect(st.associations, new', request, k, r);
        var a, b := (j, r), (k, r);
        assert a in st.associations ==> a.0 in st.jobs;
        assert b in st.associations ==> b.0 in st.jobs;
      }
    }
  }

  /** The request asks again for just what the active job was submitted with, wherever both name
      the same revision. */
  ghost predicate AgreesWith(jobs: Jobs, submitted: Requests, request: seq<Requested>) {
    forall j, i, k | j in jobs && j in submitted && jobs[j].status.Active() && 0 <= i < |submitted[j]| && 0 <= k < |request| ::
      SameRevision(submitted[j][i], request[k]) ==> submitted[j][i] == request[k]
  }

  predicate SameRevision(p: Requested, q: Requested) {
    p.revision == q.revision
  }

  /** The rows are rewritten before the second look, so a request that is refused by it has already
      done so: the patches of active jobs are still the submitted ones exactly when the refused
      request agrees with them. */
  lemma RefusedRewriteExact(jobs: Jobs, revisions: map<RevisionId, Revision>, submitted: Requests, request: seq<Requested>)
    requires PatchesStable(jobs, revisions, submitted) && Distinct(RevisionsOf(request))
    ensures PatchesStable(jobs, Rewrite(revisions, request), submitted) <==> AgreesWith(jobs, submitted, request)
  {
    hide Rewrite;
    var after := Rewrite(revisions, request);
    forall j, i | j in jobs && j in submitted && jobs[j].status.Active() && 0 <= i < |submitted[j]|
      ensures StoredAs(after, submitted[j][i]) <==>
        forall k | 0 <= k < |request| :: SameRevision(submitted[j][i], request[k]) ==> submitted[j][i] == request[k]
    {
      assert StoredAs(revisions, submitted[j][i]);
      RewrittenRow(revisions, request, submitted[j][i]);
    }
  }

  lemma RewrittenRow(revisions: map<RevisionId, Revision>, request: seq<Requested>, p: Requested)
    requires StoredAs(revisions, p) && Distinct(RevisionsOf(request))
    ensures StoredAs(Rewrite(revisions, request), p) <==>
      forall k | 0 <= k < |request| :: SameRevision(p, request[k]) ==> p == request[k]
  {
    hide Rewrite;
    RewriteEffect(revisions, request, p.revision);
    forall k | 0 <= k < |request| && SameRevision(p, request[k])
      ensures StoredAs(Rewrite(revisions, request), p) <==> p == request[k]
    {
      assert StoredAs(Rewrite(revisions, request), request[k]);
    }
    if p.revision in RevisionsOf(request) {
      var k :| 0 <= k < |request| && RevisionsOf(request)[k] == p.revision;
      assert SameRevision(p, request[k]);
    }
  }

  /** The same for a request that gets past the second look, its assessment being out of date. */
  lemma UnassessedRewriteExact(st: State, h: History, stack: set<RevisionId>, request: seq<Requested>,
                               repo: RepoName, requester: string, priority: int)
    requires Bookkeeping(st, h) && PatchesStable(st.jobs, st.revisions, h.submitted) && IsRequest(request, stack)
    ensures var st' := Submit(st, request, repo, requester, priority);
      PatchesStable(st'.jobs, st'.revisions, h.submitted[st.nextJob := request]) <==> AgreesWith(st.jobs, h.submitted, request)
  {
    hide Rewrite, Associate, AgreesWith;
    var st', submitted' := Submit(st, request, repo, requester, priority), h.submitted[st.nextJob := request];
    RefusedRewriteExact(st.jobs, st.revisions, h.submitted, request);
    forall i | 0 <= i < |request|
      ensures StoredAs(st'.revisions, request[i])
    {
      RewriteEffect(st.revisions, request, request[i].revision);
    }
    if PatchesStable(st'.jobs, st'.revisions, submitted') {
      forall j, i | j in st.jobs && j in h.submitted && st.jobs[j].status.Active() && 0 <= i < |h.submitted[j]|
        ensures StoredAs(st'.revisions, h.submitted[j][i])
      {
        assert j in st'.jobs && j in submitted' && submitted'[j] == h.submitted[j];
        assert StoredAs(st'.revisions, submitted'[j][i]);
      }
    }
  }

  // ---------------------------------------------------------------------------
  // Jobs in progress
  // ---------------------------------------------------------------------------

  /** No repository has two jobs in progress. */
  ghost predicate AtMostOneInProgress(jobs: Jobs) {
    forall j, k | j in jobs && k in jobs && jobs[j].status == InProgress && jobs[k].status == InProgress && jobs[j].repo == jobs[k].repo ::
      j == k
  }

  /** Another job of the repository of `j` is in progress. */
  ghost predicate OtherInProgress(jobs: Jobs, j: JobId)
    requires j in jobs
  {
    exists k | k in jobs :: k != j && jobs[k].status == InProgress && jobs[k].repo == jobs[j].repo
  }

  /** A single step gives a repository a second job in progress exactly when it claims a job of a
      repository that has one. A crash never does. */
  lemma AtMostOneExact(st: State, step: Step)
    requires Enabled(st, step) && AtMostOneInProgress(st.jobs)
    ensures AtMostOneInProgress(Next(st, step).jobs) <==>
      !(step.Claim? && step.job in st.jobs && OtherInProgress(st.jobs, step.job))
  {
    hide Try, IsSortedPath, Associate, Rewrite;
    if step.Claim? {
      NextIsJob(st, step);
      var jobs' := Next(st, step).jobs;
      if OtherInProgress(st.jobs, step.job) {
        var k :| k in st.jobs && k != step.job && st.jobs[k].status == InProgress && st.jobs[k].repo == st.jobs[step.job].repo;
        assert jobs'[k].status == InProgress && jobs'[step.job].status == InProgress;
      }
    }
  }

  /** A single eligible job left in progress by a crash is taken up again by the next claim exactly
      when no deferred job is eligible. */
  lemma LeftInProgressTakenUp(jobs: Jobs, repos: set<RepoName>, now: nat, grace: nat, claimed: JobId, left: JobId)
    requires IsNext(jobs, repos, now, grace, claimed)
    requires left in jobs && jobs[left].status == InProgress && Eligible(jobs[left], repos, now, grace)
    requires forall k | k in jobs && jobs[k].status == InProgress && Eligible(jobs[k], repos, now, grace) :: k == left
    ensures claimed == left <==> !exists k | k in jobs :: jobs[k].status == Deferred && Eligible(jobs[k], repos, now, grace)
  {
    StatusOrder(jobs, repos, now, grace, claimed, left);
    if k :| k in jobs && jobs[k].status == Deferred && Eligible(jobs[k], repos, now, grace) {
      StatusOrder(jobs, repos, now, grace, claimed, k);
    }
  }

  /** A job that was begun and is not finished. */
  predicate Begun(job: Job) {
    job.status in {InProgress, Deferred}
  }

  /** No repository has two jobs that were begun and are not finished, and all such jobs are past the
      grace period. */
  ghost predicate OneBegun(st: State, grace: nat) {
    && (forall j, k | j in st.jobs && k in st.jobs && Begun(st.jobs[j]) && Begun(st.jobs[k]) && st.jobs[j].repo == st.jobs[k].repo :: j == k)
    && (forall j | j in st.jobs && Begun(st.jobs[j]) :: grace == 0 || st.jobs[j].createdAt + grace < st.now)
  }

  lemma ClaimKeepsOneBegun(st: State, step: Step, grace: nat)
    requires Enabled(st, step) && OneBegun(st, grace) && step.Claim? && step.grace == grace
    ensures OneBegun(Next(st, step), grace)
  {
    NextIsJob(st, step);
    var j := step.job;
    forall k | k in st.jobs && k != j && Begun(st.jobs[k])
      ensures st.jobs[k].repo != st.jobs[j].repo
    {
      if st.jobs[k].repo == st.jobs[j].repo {
        assert Eligible(st.jobs[k], step.repos, st.now, grace);
        StatusOrder(st.jobs, step.repos, st.now, grace, j, k);
      }
    }
  }

  lemma StepKeepsOneBegun(st: State, step: Step, grace: nat)
    requires Enabled(st, step) && OneBegun(st, grace) && (step.Claim? ==> step.grace == grace)
    requires st.running.Some? ==> st.running.value in st.jobs && st.jobs[st.running.value].status == InProgress
    requires forall j | j in st.jobs :: j < st.nextJob
    ensures OneBegun(Next(st, step), grace)
  {
    hide IsSortedPath, Try, Associate, Rewrite;
    if step.Claim? {
      hide Next, Enabled, OneBegun;
      ClaimKeepsOneBegun(st, step, grace);
    } else if step.Running? {
      hide AttemptOf;
      assert !Begun(Conclude(st.jobs[st.running.value], AttemptOf(st, step.path, step.weather).verdict))
        || Begun(st.jobs[st.running.value]);
    }
  }

  /** Every claim waits for the same grace period. */
  ghost predicate ClaimsWith(steps: seq<Step>, grace: nat) {
    forall i | 0 <= i < |steps| && steps[i].Claim? :: steps[i].grace == grace
  }

  lemma ClaimGrace(steps: seq<Step>, grace: nat, i: nat)
    requires ClaimsWith(steps, grace) && i < |steps|
    ensures steps[i].Claim? ==> steps[i].grace == grace
  {
  }

  /** As long as the grace period is not changed, no repository ever has two jobs that were begun and
      are not finished, whatever crashes and whichever repositories are enabled; in particular it
      has at most one job in progress. */
  lemma {:induction false} OneBegunPerRepository(run: seq<State>, steps: seq<Step>, grace: nat, n: nat)
    requires IsExecution(run, steps) && n < |run| && ClaimsWith(steps, grace)
    ensures OneBegun(run[n], grace) && AtMostOneInProgress(run[n].jobs)
    decreases n
  {
    hide *;
    if n == 0 {
      NoneBegun(run, steps, grace);
    } else {
      OneBegunPerRepository(run, steps, grace, n - 1);
      StepOf(run, steps, n - 1);
      StateFacts(run, steps, n - 1);
      ClaimGrace(steps, grace, n - 1);
      StepKeepsOneBegun(run[n - 1], steps[n - 1], grace);
    }
    BegunInProgress(run[n], grace);
  }

  lemma NoneBegun(run: seq<State>, steps: seq<Step>, grace: nat)
    requires IsExecution(run, steps)
    ensures OneBegun(run[0], grace)
  {
    hide Enabled, Next;
  }

  lemma BegunInProgress(st: State, grace: nat)
    requires OneBegun(st, grace)
    ensures AtMostOneInProgress(st.jobs)
  {
  }

  // ---------------------------------------------------------------------------
  // The repository filter
  // ---------------------------------------------------------------------------

  /** The next job is of one of the given repositories exactly when some are given: with none, the
      query does not look at the repository at all, and finds whatever job would be next if every
      repository were given. */
  lemma RepositoryFilter(jobs: Jobs, repos: set<RepoName>, now: nat, grace: nat, j: JobId)
    requires IsNext(jobs, repos, now, grace, j)
    ensures jobs[j].repo in repos <==> repos != {}
    ensures repos == {} ==> IsNext(jobs, set k | k in jobs :: jobs[k].repo, now, grace, j)
  {
    var all := set k | k in jobs :: jobs[k].repo;
    assert forall k | k in jobs :: jobs[k].repo in all;
  }
}
