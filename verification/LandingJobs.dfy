/** Landing jobs, their statuses, and the queue from which the worker claims them. */
module LandingJobs {

  import opened Options
  import opened Sequences

  /** In definition order, by which the database sorts the column. */
  datatype Status = Submitted | InProgress | Deferred | Failed | Landed | Cancelled {
    function Rank(): nat {
      match this
      case Submitted => 0
      case InProgress => 1
      case Deferred => 2
      case Failed => 3
      case Landed => 4
      case Cancelled => 5
    }

    /** The job may still be worked on. */
    predicate Active() {
      this in {Submitted, InProgress, Deferred}
    }

    /** The job will never be worked on again. */
    predicate Final() {
      this in {Failed, Landed, Cancelled}
    }
  }

  datatype RepoName = RepoName(raw: string)

  type JobId = nat

  datatype Job = Job(
    status: Status,
    repo: RepoName,
    requester: string,
    priority: int,
    createdAt: nat,
    attempts: nat,
    landedCommit: Option<Commit>
  )

  /** The stored text of a patch. */
  datatype Patch = Patch(text: string)

  /** A change of the working directory: a patch applied as a whole or, by a failed import, in
      part, or what the code formatters did. */
  datatype Piece = Whole(patch: Patch) | Part(patch: Patch) | Formatting

  /** A commit made by someone else, or made here from the given changes. */
  datatype Commit = Foreign(id: nat) | Made(content: seq<Piece>)

  datatype Action = Land(commit: Option<Commit>) | Defer | Fail | Cancel

  /** The effect of an action on the row of a job. */
  function Transition(job: Job, action: Action): Job {
    match action
    case Land(commit) => job.(status := Landed, landedCommit := commit)
    case Defer => job.(status := Deferred)
    case Fail => job.(status := Failed)
    case Cancel => job.(status := Cancelled)
  }

  // ---------------------------------------------------------------------------
  // The queue
  // ---------------------------------------------------------------------------

  /** Whether the queue query returns the job. No repositories, or no grace period, means that the
      respective filter is left out. */
  predicate Eligible(job: Job, repos: set<RepoName>, now: nat, grace: nat) {
    && job.status.Active()
    && (repos == {} || job.repo in repos)
    && (grace == 0 || job.createdAt + grace < now)
  }

  /** Sorted by status, descending, then by priority, descending, then by age. */
  predicate Before(a: Job, b: Job) {
    || a.status.Rank() > b.status.Rank()
    || (a.status == b.status && a.priority > b.priority)
    || (a.status == b.status && a.priority == b.priority && a.createdAt < b.createdAt)
  }

  /** `q` lists exactly the eligible jobs, in a sorted order; ties may come in any order. */
  ghost predicate IsQueue(jobs: map<JobId, Job>, repos: set<RepoName>, now: nat, grace: nat, q: seq<JobId>) {
    && Distinct(q)
    && (forall j :: j in q <==> j in jobs && Eligible(jobs[j], repos, now, grace))
    && (forall a, b | 0 <= a < b < |q| :: q[a] in jobs && q[b] in jobs && !Before(jobs[q[b]], jobs[q[a]]))
  }

  /** The job that the worker may claim next. */
  ghost predicate IsNext(jobs: map<JobId, Job>, repos: set<RepoName>, now: nat, grace: nat, j: JobId) {
    && j in jobs && Eligible(jobs[j], repos, now, grace)
    && (forall k | k in jobs && Eligible(jobs[k], repos, now, grace) :: !Before(jobs[k], jobs[j]))
  }

  /** The next job waits for the worker, is of a given repository if any are given, and is past the
      grace period if there is one; and of all such jobs none is deferred unless it is, none is in
      progress if it is only submitted, and none with its status is more urgent, or older and as urgent. */
  lemma NextIff(jobs: map<JobId, Job>, repos: set<RepoName>, now: nat, grace: nat, j: JobId)
    ensures IsNext(jobs, repos, now, grace, j) <==>
      && j in jobs
      && jobs[j].status in {Submitted, InProgress, Deferred}
      && (repos == {} || jobs[j].repo in repos) && (grace == 0 || jobs[j].createdAt + grace < now)
      && forall k |
        && k in jobs && jobs[k].status in {Submitted, InProgress, Deferred}
        && (repos == {} || jobs[k].repo in repos) && (grace == 0 || jobs[k].createdAt + grace < now) ::
        && (jobs[k].status == Deferred ==> jobs[j].status == Deferred)
        && (jobs[j].status == Submitted ==> jobs[k].status != InProgress)
        && (jobs[k].status == jobs[j].status ==> jobs[k].priority <= jobs[j].priority)
        && (jobs[k].status == jobs[j].status && jobs[k].priority == jobs[j].priority ==> jobs[j].createdAt <= jobs[k].createdAt)
  {
  }

  /** The effect of each action, field by field. */
  lemma TransitionEffect(job: Job, commit: Option<Commit>)
    ensures Transition(job, Cancel) == job.(status := Cancelled) && Transition(job, Fail) == job.(status := Failed)
    ensures Transition(job, Defer) == job.(status := Deferred)
    ensures Transition(job, Land(commit)) == job.(status := Landed, landedCommit := commit)
  {
  }

  method InsertJob(jobs: map<JobId, Job>, q: seq<JobId>, j: JobId) returns (r: seq<JobId>)
    requires j in jobs && j !in q && Distinct(q) && forall i | 0 <= i < |q| :: q[i] in jobs
    requires forall a, b | 0 <= a < b < |q| :: !Before(jobs[q[b]], jobs[q[a]])
    ensures Distinct(r) && forall k :: k in r <==> k in q || k == j
    ensures forall a, b | 0 <= a < b < |r| :: r[a] in jobs && r[b] in jobs && !Before(jobs[r[b]], jobs[r[a]])
  {
    var i := 0;
    while i < |q| && !Before(jobs[j], jobs[q[i]])
      invariant 0 <= i <= |q|
      invariant forall a | 0 <= a < i :: !Before(jobs[j], jobs[q[a]])
    {
      i := i + 1;
    }
    r := q[..i] + [j] + q[i..];
    forall k
      ensures k in r <==> k in q || k == j
    {
      assert q == q[..i] + q[i..];
      assert r[i] == j;
    }
    forall b | i <= b < |q|
      ensures !Before(jobs[q[b]], jobs[j])
    {
      assert !Before(jobs[q[b]], jobs[q[i]]) || b == i;
    }
  }

  /** The jobs in the queue, in the order of the query. */
  method JobQueue(jobs: map<JobId, Job>, repos: set<RepoName>, now: nat, grace: nat) returns (q: seq<JobId>)
    ensures IsQueue(jobs, repos, now, grace, q)
    ensures q != [] ==> IsNext(jobs, repos, now, grace, q[0])
    ensures q == [] ==> forall j | j in jobs :: !Eligible(jobs[j], repos, now, grace)
  {
    q := [];
    var todo := set j | j in jobs && Eligible(jobs[j], repos, now, grace);
    while todo != {}
      invariant forall j | j in todo :: j in jobs && Eligible(jobs[j], repos, now, grace)
      invariant Distinct(q)
      invariant forall j :: j in q <==> j in jobs && Eligible(jobs[j], repos, now, grace) && j !in todo
      invariant forall a, b | 0 <= a < b < |q| :: q[a] in jobs && q[b] in jobs && !Before(jobs[q[b]], jobs[q[a]])
      decreases todo
    {
      var j :| j in todo;
      assert forall i | 0 <= i < |q| :: q[i] in q;
      q := InsertJob(jobs, q, j);
      todo := todo - {j};
    }
    if q != [] {
      assert q[0] in q;
      forall k | k in jobs && Eligible(jobs[k], repos, now, grace)
        ensures !Before(jobs[k], jobs[q[0]])
      {
        assert k in q;
      }
    }
  }

  /** The grace filter is monotone in age, so a submitted job is never claimed while a submitted
      job of the same repository waits that is no younger, no less urgent, and older or more urgent. */
  lemma ClaimIsFair(jobs: map<JobId, Job>, repos: set<RepoName>, now: nat, grace: nat, claimed: JobId, waiting: JobId)
    requires IsNext(jobs, repos, now, grace, claimed) && jobs[claimed].status == Submitted
    requires waiting in jobs && jobs[waiting].status == Submitted && jobs[waiting].repo == jobs[claimed].repo
    ensures !(jobs[waiting].createdAt <= jobs[claimed].createdAt && jobs[waiting].priority >= jobs[claimed].priority
              && (jobs[waiting].createdAt < jobs[claimed].createdAt || jobs[waiting].priority > jobs[claimed].priority))
  {
    if jobs[waiting].createdAt <= jobs[claimed].createdAt {
      assert Eligible(jobs[waiting], repos, now, grace);
    }
  }

  /** Deferred jobs come first, then those left in progress by a crash, then submitted ones. */
  lemma StatusOrder(jobs: map<JobId, Job>, repos: set<RepoName>, now: nat, grace: nat, claimed: JobId, waiting: JobId)
    requires IsNext(jobs, repos, now, grace, claimed)
    requires waiting in jobs && Eligible(jobs[waiting], repos, now, grace)
    ensures jobs[waiting].status == Deferred ==> jobs[claimed].status == Deferred
    ensures jobs[waiting].status == InProgress ==> jobs[claimed].status != Submitted
  {
    assert !Before(jobs[waiting], jobs[claimed]);
  }
}
