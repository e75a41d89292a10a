/** The landing queue and the worker as the program runs them: tables changed in place, and a
    local repository driven patch by patch. */
module LandingWorker {

  import opened Options
  import opened Sequences
  import opened LandingJobs
  import opened LandingProtocol
  import opened LandingLaws

  /** A remote repository, to which others push as well. */
  class Remote {
    var history: seq<Commit>

    constructor (history: seq<Commit>)
      ensures this.history == history
    {
      this.history := history;
    }
  }

  /** The worker's clone of a remote repository. */
  class HgRepo {
    const remote: Remote
    var published: seq<Commit>
    var drafts: seq<Commit>
    var uncommitted: seq<Piece>

    ghost function Value(): Clone
      reads this
    {
      Clone(published, drafts, uncommitted)
    }

    constructor (remote: Remote)
      ensures this.remote == remote && Value() == Clone([], [], [])
    {
      this.remote := remote;
      published, drafts, uncommitted := [], [], [];
    }

    /** Reverts and purges the working directory, and strips drafts unless told not to. */
    method CleanRepo(stripNonPublicCommits: bool)
      modifies this
      ensures Value() == if stripNonPublicCommits then old(Value()).Clean() else old(Value()).(uncommitted := [])
      ensures uncommitted == [] && published == old(published) && drafts == if stripNonPublicCommits then [] else old(drafts)
    {
      uncommitted := [];
      if stripNonPublicCommits {
        drafts := [];
      }
    }

    /** Cleans, pulls and updates to the remote head. */
    method UpdateRepo(w: Weather) returns (result: PullResult)
      modifies this
      ensures result == w.pull
      ensures result == Pulled ==> Value() == Clone(remote.history, [], [])
      ensures result != Pulled ==> published == if w.pulledAnyway then remote.history else old(published)
    {
      if w.pull != Pulled {
        if w.pulledAnyway {
          CleanRepo(true);
          published := remote.history;
        }
        return w.pull;
      }
      CleanRepo(true);
      published := remote.history;
      return Pulled;
    }

    method Commit()
      modifies this
      ensures Value() == Clone(old(published), old(drafts) + [Made(old(uncommitted))], [])
    {
      drafts := drafts + [Made(uncommitted)];
      uncommitted := [];
    }

    /** Imports one patch and commits it. When the first import stops at a conflict, what it has
        already applied is discarded before the external tool gets its turn; when it stops at anything
        else, that is ignored, and what it has already applied is committed. */
    method ApplyPatch(patch: Patch, result: ImportResult) returns (ok: bool)
      modifies this
      ensures ok <==> result in {Applied, AppliedOnRetry, Swallowed}
      ensures ok && old(uncommitted) == [] ==>
        Value() == Clone(old(published), old(drafts) + [Made([if result == Swallowed then Part(patch) else Whole(patch)])], [])
      ensures published == old(published)
    {
      if result == NoDiffStartLine || result == ImportError {
        return false;
      }
      if result == Applied {
        uncommitted := uncommitted + [Whole(patch)];
      } else if result == Swallowed {
        uncommitted := uncommitted + [Part(patch)];
      } else {
        uncommitted := uncommitted + [Part(patch)];
        CleanRepo(false);
        if result == Conflict {
          uncommitted := uncommitted + [Part(patch)];
          return false;
        }
        uncommitted := uncommitted + [Whole(patch)];
      }
      assert old(uncommitted) == [] ==> uncommitted == [Imported(patch, result)];
      Commit();
      return true;
    }

    /** Runs the formatters; their changes go into the commit if there is just one, and into a
        commit of their own otherwise. */
    method FormatStack(result: FormatResult) returns (ok: bool)
      requires uncommitted == [] && forall i | 0 <= i < |drafts| :: drafts[i].Made?
      modifies this
      ensures ok <==> result != FormatError
      ensures ok ==> Value() == Clone(old(published), Format(old(drafts), result), [])
      ensures ok ==> uncommitted == []
      ensures ok && result != Formatted ==> drafts == old(drafts)
      ensures ok && result == Formatted && |old(drafts)| == 1 ==> drafts == [Made(old(drafts)[0].content + [Formatting])]
      ensures ok && result == Formatted && |old(drafts)| != 1 ==> drafts == old(drafts) + [Made([Formatting])]
      ensures published == old(published)
    {
      if result == FormatError {
        return false;
      }
      if result == Formatted {
        uncommitted := uncommitted + [Formatting];
        assert uncommitted == [Formatting];
        if |drafts| == 1 {
          drafts := [Made(drafts[0].content + uncommitted)];
          uncommitted := [];
        } else {
          Commit();
        }
      }
      return true;
    }

    /** Publishes the drafts, unless the remote has moved since it was pulled. Others may push
        right before. */
    method Push(w: Weather) returns (result: PushResult)
      modifies this, remote
      ensures result == Pushed <==> w.push == Pushed && old(remote.history) + w.racing == old(published)
      ensures result == PushError <==> w.push == PushError
      ensures result == Pushed ==>
        remote.history == old(published) + old(drafts) && Value() == Clone(remote.history, [], old(uncommitted))
      ensures result != Pushed ==> remote.history == old(remote.history) + w.racing && Value() == old(Value())
    {
      remote.history := remote.history + w.racing;
      if w.push != Pushed {
        return w.push;
      }
      if remote.history != published {
        return TemporaryPushError;
      }
      published := published + drafts;
      remote.history := published;
      drafts := [];
      return Pushed;
    }
  }

  datatype CancelRefusal = NoSuchJob | NotAuthorized | InvalidStatus | CannotCancel

  /** The tables of the landing queue, and the job the worker holds. */
  class Queue {
    var jobs: map<JobId, Job>
    var nextJob: JobId
    var revisions: map<RevisionId, Revision>
    var associations: Associations
    var running: Option<JobId>
    var now: nat

    ghost function View(remotes: map<RepoName, seq<Commit>>, clones: map<RepoName, Clone>): State
      reads this
    {
      State(jobs, nextJob, revisions, associations, running, remotes, clones, now)
    }

    /** The job has exactly these revisions, in this order. */
    ghost predicate Holds(j: JobId, path: seq<RevisionId>)
      reads this`associations, this`revisions
    {
      IsSortedPath(associations, j, path) && forall i | 0 <= i < |path| :: path[i] in revisions
    }

    constructor ()
      ensures jobs == map[] && associations == map[] && running == None
    {
      jobs, nextJob, revisions, associations, running, now := map[], 0, map[], map[], None, 0;
    }

    /** Adds association rows, without an index or a diff yet. */
    method AddRevisions(j: JobId, path: seq<Requested>)
      requires Distinct(RevisionsOf(path)) && forall key | key in associations :: key.0 != j
      modifies this`associations
      ensures forall key :: key in associations <==> key in old(associations) || (key.0 == j && key.1 in RevisionsOf(path))
      ensures forall key | key in old(associations) :: associations[key] == old(associations)[key]
    {
      var revs := RevisionsOf(path);
      for i := 0 to |path|
        invariant forall key :: key in associations <==> key in old(associations) || (key.0 == j && key.1 in revs[..i])
        invariant forall key | key in old(associations) :: associations[key] == old(associations)[key]
      {
        associations := associations[(j, path[i].revision) := Association(None, None)];
        assert revs[..i + 1] == revs[..i] + [path[i].revision];
      }
      assert revs[..|path|] == revs;
    }

    /** Numbers the association rows of a job in the given order. */
    method SortRevisions(j: JobId, path: seq<Requested>)
      requires Distinct(RevisionsOf(path)) && forall i | 0 <= i < |path| :: (j, RevisionsOf(path)[i]) in associations
      modifies this`associations
      ensures associations.Keys == old(associations).Keys
      ensures forall key | key in associations && key.0 != j :: associations[key] == old(associations)[key]
      ensures forall i | 0 <= i < |path| :: associations[(j, RevisionsOf(path)[i])].index == Some(i)
    {
      var revs := RevisionsOf(path);
      for i := 0 to |path|
        invariant associations.Keys == old(associations).Keys
        invariant forall key | key in associations && key.0 != j :: associations[key] == old(associations)[key]
        invariant forall k | 0 <= k < i :: associations[(j, revs[k])].index == Some(k)
      {
        var key := (j, revs[i]);
        associations := associations[key := associations[key].(index := Some(i))];
      }
    }

    /** Copies the current diff of each revision of a job into its association row. */
    method SetLandedRevisionDiffs(j: JobId, path: seq<Requested>)
      requires Distinct(RevisionsOf(path))
      requires forall i | 0 <= i < |path| :: (j, RevisionsOf(path)[i]) in associations && RevisionsOf(path)[i] in revisions
      modifies this`associations
      ensures associations.Keys == old(associations).Keys
      ensures forall key | key in associations && key.0 != j :: associations[key] == old(associations)[key]
      ensures forall i | 0 <= i < |path| ::
        associations[(j, RevisionsOf(path)[i])] ==
        old(associations)[(j, RevisionsOf(path)[i])].(diff := Some(revisions[RevisionsOf(path)[i]].diff))
    {
      var revs := RevisionsOf(path);
      for i := 0 to |path|
        invariant associations.Keys == old(associations).Keys
        invariant forall key | key in associations && key.0 != j :: associations[key] == old(associations)[key]
        invariant forall k | 0 <= k < i :: associations[(j, revs[k])] == old(associations)[(j, revs[k])].(diff := Some(revisions[revs[k]].diff))
        invariant forall k | i <= k < |path| :: associations[(j, revs[k])] == old(associations)[(j, revs[k])]
      {
        var key := (j, revs[i]);
        associations := associations[key := associations[key].(diff := Some(revisions[revs[i]].diff))];
      }
    }

    /** Creates or overwrites the row of each requested revision. */
    method RewriteRevisions(path: seq<Requested>)
      modifies this`revisions
      ensures revisions == Rewrite(old(revisions), path)
    {
      for i := 0 to |path|
        invariant revisions == Rewrite(old(revisions), path[..i])
      {
        assert path[..i + 1][..i] == path[..i];
        revisions := revisions[path[i].revision := Revision(path[i].diff, path[i].patch)];
      }
      assert path[..|path|] == path;
    }

    /** Associates a new job with its revisions, in their order. */
    method AddRevisionsToJob(j: JobId, path: seq<Requested>)
      requires Distinct(RevisionsOf(path)) && forall key | key in associations :: key.0 != j
      modifies this`associations
      ensures forall key :: key in associations <==> key in old(associations) || (key.0 == j && key.1 in RevisionsOf(path))
      ensures forall key | key in old(associations) :: associations[key] == old(associations)[key]
      ensures forall i | 0 <= i < |path| :: associations[(j, RevisionsOf(path)[i])].index == Some(i)
    {
      AddRevisions(j, path);
      forall i | 0 <= i < |path|
        ensures (j, RevisionsOf(path)[i]) in associations
      {
        var key := (j, RevisionsOf(path)[i]);
        assert key.1 in RevisionsOf(path);
      }
      SortRevisions(j, path);
    }

    /** Creates the job of a request whose revisions have been rewritten. */
    method InsertJob(path: seq<Requested>, repo: RepoName, requester: string, priority: int, ghost before: map<RevisionId, Revision>)
      returns (j: JobId)
      requires Distinct(RevisionsOf(path)) && forall key | key in associations :: key.0 < nextJob
      requires revisions == Rewrite(before, path)
      modifies this`jobs, this`nextJob, this`associations
      ensures j == old(nextJob) && nextJob == j + 1
      ensures jobs == old(jobs)[j := Job(Submitted, repo, requester, priority, now, 0, None)]
      ensures associations == Associate(old(associations), j, path)
      ensures forall i | 0 <= i < |path| ::
        (j, path[i].revision) in associations && associations[(j, path[i].revision)] == Association(Some(i), Some(path[i].diff))
      ensures forall key | key in associations :: key in old(associations) || (key.0 == j && key.1 in RevisionsOf(path))
      ensures forall key | key in old(associations) :: key in associations && associations[key] == old(associations)[key]
    {
      hide Associate, Rewrite;
      j := nextJob;
      nextJob := nextJob + 1;
      AddRevisionsToJob(j, path);
      jobs := jobs[j := Job(Submitted, repo, requester, priority, now, 0, None)];
      ghost var requested := RevisionsOf(path);
      forall i | 0 <= i < |path|
        ensures requested[i] in revisions && revisions[requested[i]] == Revision(path[i].diff, path[i].patch)
        ensures (j, requested[i]) in associations
      {
        RewriteEffect(before, path, requested[i]);
        assert StoredAs(revisions, path[i]);
        var key := (j, requested[i]);
        assert key.1 in requested;
      }
      SetLandedRevisionDiffs(j, path);
      AssociationsAre(old(associations), j, path, associations);
      assert forall i | 0 <= i < |path| :: requested[i] == path[i].revision;
    }

    /** What follows the assessment: the rows of the requested revisions are rewritten, and then the
        request becomes a job, unless a submitted or running job holds one of its revisions. */
    method Post(path: seq<Requested>, repo: RepoName, requester: string, priority: int) returns (id: Option<JobId>)
      requires Distinct(RevisionsOf(path))
      requires forall key | key in associations :: key.0 in jobs && key.0 < nextJob
      modifies this
      ensures id.None? <==> RecheckFails(old(View(map[], map[])), path)
      ensures id.None? ==>
        View(map[], map[]) == old(View(map[], map[])).(revisions := Rewrite(old(revisions), path))
      ensures id.Some? ==>
        && id.value == old(nextJob)
        && View(map[], map[]) == Submit(old(View(map[], map[])), path, repo, requester, priority)
      ensures id.Some? ==>
        && jobs == old(jobs)[id.value := Job(Submitted, repo, requester, priority, now, 0, None)]
        && (forall i | 0 <= i < |path| :: (id.value, path[i].revision) in associations
              && associations[(id.value, path[i].revision)] == Association(Some(i), Some(path[i].diff)))
        && (forall key | key in associations :: key in old(associations) || (key.0 == id.value && key.1 in RevisionsOf(path)))
        && (forall key | key in old(associations) :: key in associations && associations[key] == old(associations)[key])
      ensures forall i | 0 <= i < |path| ::
        path[i].revision in revisions && revisions[path[i].revision] == Revision(path[i].diff, path[i].patch)
      ensures forall r | r in old(revisions) && r !in RevisionsOf(path) :: r in revisions && revisions[r] == old(revisions)[r]
    {
      hide Associate, Rewrite;
      RewriteRevisions(path);
      forall i | 0 <= i < |path|
        ensures path[i].revision in revisions && revisions[path[i].revision] == Revision(path[i].diff, path[i].patch)
      {
        RewriteEffect(old(revisions), path, path[i].revision);
        assert StoredAs(revisions, path[i]);
      }
      forall r | r in old(revisions) && r !in RevisionsOf(path)
        ensures r in revisions && revisions[r] == old(revisions)[r]
      {
        RewriteEffect(old(revisions), path, r);
      }
      var requested := RevisionsOf(path);
      if exists key | key in associations ::
        key.0 in jobs && jobs[key.0].status in {Submitted, InProgress} && key.1 in requested {
        return None;
      }
      var j := InsertJob(path, repo, requester, priority, old(revisions));
      return Some(j);
    }

    /** Cancels a job for its requester while it waits. */
    method Put(j: JobId, user: string, wanted: Status) returns (r: Result<(), CancelRefusal>)
      modifies this`jobs
      ensures r.Ok? <==> j in old(jobs) && old(jobs)[j].requester == user && wanted == Cancelled
                         && old(jobs)[j].status in {Submitted, Deferred}
      ensures jobs == if r.Ok? then old(jobs)[j := old(jobs)[j].(status := Cancelled)] else old(jobs)
      ensures r.Ok? ==> forall remotes, clones ::
        Enabled(old(View(remotes, clones)), Cancellation(j)) && View(remotes, clones) == Next(old(View(remotes, clones)), Cancellation(j))
      ensures r == Err(NoSuchJob) <==> j !in old(jobs)
      ensures r == Err(NotAuthorized) <==> j in old(jobs) && old(jobs)[j].requester != user
      ensures r == Err(InvalidStatus) <==> j in old(jobs) && old(jobs)[j].requester == user && wanted != Cancelled
    {
      if j !in jobs {
        return Err(NoSuchJob);
      }
      if jobs[j].requester != user {
        return Err(NotAuthorized);
      }
      if wanted != Cancelled {
        return Err(InvalidStatus);
      }
      if jobs[j].status == Submitted || jobs[j].status == Deferred {
        jobs := jobs[j := Transition(jobs[j], Cancel)];
        return Ok(());
      }
      return Err(CannotCancel);
    }

    /** Claims the first job of the queue. */
    method ClaimNext(repos: set<RepoName>, grace: nat) returns (claimed: Option<JobId>)
      requires running.None?
      modifies this`jobs, this`running
      ensures claimed.None? ==> jobs == old(jobs) && running == None
      ensures claimed.None? ==> forall j | j in jobs :: !Eligible(jobs[j], repos, now, grace)
      ensures claimed.Some? ==>
        var j := claimed.value;
        && IsNext(old(jobs), repos, now, grace, j) && running == Some(j)
        && jobs == old(jobs)[j := old(jobs)[j].(status := InProgress, attempts := old(jobs)[j].attempts + 1)]
      ensures claimed.Some? ==> forall remotes, clones ::
        Enabled(old(View(remotes, clones)), Claim(claimed.value, repos, grace))
        && View(remotes, clones) == Next(old(View(remotes, clones)), Claim(claimed.value, repos, grace))
    {
      var q := JobQueue(jobs, repos, now, grace);
      if q == [] {
        return None;
      }
      var j := q[0];
      jobs := jobs[j := jobs[j].(status := InProgress)];
      jobs := jobs[j := jobs[j].(attempts := jobs[j].attempts + 1)];
      assert jobs == old(jobs)[j := old(jobs)[j].(status := InProgress, attempts := old(jobs)[j].attempts + 1)];
      running := Some(j);
      return Some(j);
    }

    /** The revisions of a job, ordered by the index of their association rows. */
    method LoadRevisions(j: JobId, ghost path: seq<RevisionId>) returns (loaded: seq<RevisionId>)
      requires IsSortedPath(associations, j, path)
      ensures loaded == path
    {
      loaded := [];
      while exists key | key in associations :: key.0 == j && associations[key].index == Some(|loaded|)
        invariant |loaded| <= |path| && loaded == path[..|loaded|]
        decreases |path| - |loaded|
      {
        var key :| key in associations && key.0 == j && associations[key].index == Some(|loaded|);
        var r := key.1;
        assert key == (j, r);
        ghost var i: nat := PositionOf(associations, j, path, r);
        loaded := loaded + [r];
      }
      IndexTaken(associations, j, path, |loaded|);
    }

    /** Runs the claimed job once. The job lands exactly when the tree is open, everything works and
        nobody else pushes in between, and only then does the remote gain its block; otherwise it gains
        nothing but what others pushed meanwhile. Past the tree check the clone is left without drafts
        and changes. The result says whether the job reached a permanent state, except that a
        formatting failure, which is permanent, is reported as if it were not. */
    method RunJob(hg: HgRepo, ghost path: seq<RevisionId>, w: Weather) returns (finished: bool)
      requires running.Some? && running.value in jobs
      requires Holds(running.value, path)
      modifies this`jobs, this`running, hg, hg.remote
      ensures running == None
      ensures var a := Try(old(hg.Value()), old(hg.remote.history), PatchesOf(revisions, path), w);
        && hg.Value() == a.clone && hg.remote.history == a.remote
        && jobs == old(jobs)[old(running.value) := Conclude(old(jobs)[old(running.value)], a.verdict)]
      ensures jobs[old(running.value)].status == Landed <==>
        && w.treeOpen && w.pull == Pulled && (forall i | 0 <= i < |path| :: w.Import(i) in {Applied, AppliedOnRetry, Swallowed})
        && w.format != FormatError && w.push == Pushed && w.racing == []
      ensures jobs[old(running.value)].status == Deferred <==>
        || !w.treeOpen
        || w.pull == ServerError
        || (w.pull == ConversionError && old(jobs)[old(running.value)].attempts < 5)
        || (w.pull == Pulled && (forall i | 0 <= i < |path| :: w.Import(i) in {Applied, AppliedOnRetry, Swallowed})
            && w.format != FormatError && (w.push == TemporaryPushError || (w.push == Pushed && w.racing != [])))
      ensures jobs[old(running.value)].status == Failed <==>
        && w.treeOpen
        && (|| w.pull == PullError
            || (w.pull == ConversionError && old(jobs)[old(running.value)].attempts >= 5)
            || (w.pull == Pulled && exists i | 0 <= i < |path| :: w.Import(i) in {Conflict, NoDiffStartLine, ImportError})
            || (w.pull == Pulled && w.format == FormatError)
            || (w.pull == Pulled && w.push == PushError))
      ensures var j := old(running.value);
        jobs[j] == old(jobs)[j].(status := jobs[j].status,
          landedCommit := if jobs[j].status == Landed then Last(hg.remote.history[|old(hg.remote.history)|..]) else old(jobs)[j].landedCommit)
      ensures old(hg.remote.history) <= hg.remote.history
      ensures var added := hg.remote.history[|old(hg.remote.history)|..];
        var pushing := w.treeOpen && w.pull == Pulled && w.format != FormatError
          && forall i | 0 <= i < |path| :: w.Import(i) in {Applied, AppliedOnRetry, Swallowed};
        && (jobs[old(running.value)].status == Landed ==> IsBlockOf(added, PatchesOf(revisions, path), w))
        && (jobs[old(running.value)].status != Landed ==> added == if pushing then w.racing else [])
      ensures if w.treeOpen then hg.drafts == [] && hg.uncommitted == [] else hg.Value() == old(hg.Value())
      ensures forall remotes, clones | var repo := old(jobs)[old(running.value)].repo;
          repo in remotes && repo in clones && remotes[repo] == old(hg.remote.history) && clones[repo] == old(hg.Value()) ::
        var repo := old(jobs)[old(running.value)].repo;
        Enabled(old(View(remotes, clones)), Running(path, w)) &&
        View(remotes[repo := hg.remote.history], clones[repo := hg.Value()]) == Next(old(View(remotes, clones)), Running(path, w))
      ensures finished <==>
        && jobs[old(running.value)].status in {Landed, Failed}
        && !(w.treeOpen && w.pull == Pulled && (forall i | 0 <= i < |path| :: w.Import(i) in {Applied, AppliedOnRetry, Swallowed})
             && w.format == FormatError)
    {
      hide Block, Format, IsBlockOf, Try, CanLand, IsCommitted, Conclude;
      var j := running.value;
      ghost var patches, clone, remote := PatchesOf(revisions, path), hg.Value(), hg.remote.history;
      Outcome(jobs[j], clone, remote, patches, w);
      Added(clone, remote, patches, w);
      forall remotes, clones | var repo := jobs[j].repo;
          repo in remotes && repo in clones && remotes[repo] == remote && clones[repo] == clone
        ensures RunsAs(View(remotes, clones), path, w, Try(clone, remote, patches, w))
      {
        RunIsStep(View(remotes, clones), path, w, clone, remote);
      }
      hide IsSortedPath, Enabled, Next;
      var verdict, unformatted := TryIfOpen(hg, j, path, w);
      jobs := jobs[j := Conclude(jobs[j], verdict)];
      running := None;
      finished := jobs[j].status.Final() && !unformatted;
    }

    /** One iteration of the worker: claim the next job of the enabled repositories, if there is
        one, and run it in the clone of its repository. With no repository enabled the job of any
        repository is claimed; if its tree is closed, it has been deferred once more in the end. */
    method Loop(enabled: set<RepoName>, grace: nat, clones: map<RepoName, HgRepo>, ghost paths: map<JobId, seq<RevisionId>>, w: Weather)
      returns (claimed: Option<JobId>)
      requires running.None?
      requires forall j | j in jobs :: jobs[j].repo in clones && j in paths && Holds(j, paths[j])
      modifies this`jobs, this`running, clones.Values, set h | h in clones.Values :: h.remote
      ensures running == None
      ensures claimed.None? ==> jobs == old(jobs)
      ensures claimed.None? <==> forall j | j in old(jobs) :: !Eligible(old(jobs)[j], enabled, now, grace)
      ensures claimed.Some? ==>
        var j := claimed.value;
        && IsNext(old(jobs), enabled, now, grace, j) && Holds(j, paths[j])
        && (old(jobs)[j].repo in enabled <==> enabled != {})
        && var hg := clones[old(jobs)[j].repo];
          var a := Try(old(hg.Value()), old(hg.remote.history), PatchesOf(revisions, paths[j]), w);
          && hg.Value() == a.clone && hg.remote.history == a.remote
          && jobs == old(jobs)[j := Conclude(old(jobs)[j].(status := InProgress, attempts := old(jobs)[j].attempts + 1), a.verdict)]
      ensures claimed.Some? && !w.treeOpen ==>
        var j := claimed.value;
        jobs == old(jobs)[j := old(jobs)[j].(status := Deferred, attempts := old(jobs)[j].attempts + 1)]
    {
      claimed := ClaimNext(enabled, grace);
      if claimed.None? {
        return;
      }
      var j := claimed.value;
      RepositoryFilter(old(jobs), enabled, now, grace, j);
      hide Try, Eligible, IsNext, CanRun, IsSortedPath, Enabled, Next, CanLand, FormattingFails, OutsideDuring;
      ghost var hg := clones[jobs[j].repo];
      TryEffect(hg.Value(), hg.remote.history, j, PatchesOf(revisions, paths[j]), w);
      var _ := RunJob(clones[jobs[j].repo], paths[j], w);
    }

    /** Defers the job at once if its tree is closed, and otherwise leaves the clone clean. */
    method TryIfOpen(hg: HgRepo, j: JobId, ghost path: seq<RevisionId>, w: Weather) returns (verdict: Verdict, unformatted: bool)
      requires Holds(j, path)
      modifies hg, hg.remote
      ensures Attempt(hg.Value(), hg.remote.history, verdict) == Try(old(hg.Value()), old(hg.remote.history), PatchesOf(revisions, path), w)
      ensures if w.treeOpen then hg.drafts == [] && hg.uncommitted == [] else hg.Value() == old(hg.Value())
      ensures unformatted <==>
        && w.treeOpen && w.pull == Pulled && (forall i | 0 <= i < |path| :: w.Import(i) in {Applied, AppliedOnRetry, Swallowed})
        && w.format == FormatError
    {
      TryEffect(hg.Value(), hg.remote.history, j, PatchesOf(revisions, path), w);
      hide Try, IsBlockOf, OutsideDuring;
      if !w.treeOpen {
        return Defers, false;
      }
      verdict, unformatted := TryToLand(hg, j, path, w);
      hg.CleanRepo(true);
    }

    /** Everything that happens between opening and closing the local repository, and whether it
        ended with the formatters failing. */
    method TryToLand(hg: HgRepo, j: JobId, ghost path: seq<RevisionId>, w: Weather) returns (verdict: Verdict, unformatted: bool)
      requires w.treeOpen
      requires Holds(j, path)
      modifies hg, hg.remote
      ensures var a := Try(old(hg.Value()), old(hg.remote.history), PatchesOf(revisions, path), w);
        && hg.Value().Clean() == a.clone && hg.remote.history == a.remote && verdict == a.verdict
      ensures verdict.Lands? <==>
        && w.pull == Pulled && (forall i | 0 <= i < |path| :: w.Import(i) in {Applied, AppliedOnRetry, Swallowed})
        && w.format != FormatError && w.push == Pushed && w.racing == []
      ensures old(hg.remote.history) <= hg.remote.history
      ensures verdict.Lands? ==>
        var added := hg.remote.history[|old(hg.remote.history)|..];
        IsBlockOf(added, PatchesOf(revisions, path), w) && verdict.commit == Last(added)
      ensures !verdict.Lands? ==> hg.remote.history == old(hg.remote.history) + OutsideDuring(|path|, w)
      ensures unformatted <==> FormattingFails(|path|, w)
    {
      TryEffect(hg.Value(), hg.remote.history, j, PatchesOf(revisions, path), w);
      BlockIsBlock(PatchesOf(revisions, path), w);
      hide Block, Format, IsBlockOf;
      ghost var clone, remote := hg.Value(), hg.remote.history;
      var pulled := hg.UpdateRepo(w);
      if pulled != Pulled {
        verdict := match pulled case ServerError => Defers case ConversionError => ConversionFails case _ => Fails;
        unformatted := false;
        NothingTried(clone, remote, PatchesOf(revisions, path), w);
      } else {
        verdict, unformatted := LandPatches(hg, j, path, w);
        TryIgnoresLeftovers(clone, Clone(remote, [], []), remote, PatchesOf(revisions, path), w);
      }
      hide Try, ReachesPush, IsCommitted;
      assert remote + [] == remote;
    }

    /** Imports the patches on top of what was pulled, formats, and pushes. */
    method LandPatches(hg: HgRepo, j: JobId, ghost path: seq<RevisionId>, w: Weather) returns (verdict: Verdict, unformatted: bool)
      requires w.treeOpen && w.pull == Pulled
      requires Holds(j, path)
      requires hg.Value() == Clone(hg.remote.history, [], [])
      modifies hg, hg.remote
      ensures var a := Try(old(hg.Value()), old(hg.remote.history), PatchesOf(revisions, path), w);
        && hg.Value().Clean() == a.clone && hg.remote.history == a.remote && verdict == a.verdict
      ensures unformatted <==> FormattingFails(|path|, w)
    {
      unformatted := false;
      var revs := LoadRevisions(j, path);
      ghost var patches, remote := PatchesOf(revisions, path), hg.remote.history;
      BlockIs(patches, w);
      PatchesTried(remote, patches, w);
      hide Try, Block, Format, IsCommitted, Holds, IsSortedPath;
      for i := 0 to |revs|
        invariant hg.remote.history == remote
        invariant hg.Value() == Clone(remote, ImportedCommits(patches, w)[..i], [])
        invariant forall k | 0 <= k < i :: IsCommitted(w.Import(k))
      {
        var ok := hg.ApplyPatch(revisions[revs[i]].patch, w.Import(i));
        CommittedIff(w.Import(i));
        if !ok {
          return Fails, false;
        }
        OneImported(patches, w, i);
      }
      assert ImportedCommits(patches, w)[..|revs|] == ImportedCommits(patches, w);
      var formatted := hg.FormatStack(w.format);
      if !formatted {
        return Fails, true;
      }
      var commit := Last(hg.drafts);
      var pushed := hg.Push(w);
      match pushed {
        case Pushed => return Lands(commit), false;
        case TemporaryPushError => return Defers, false;
        case PushError => return Fails, false;
      }
    }
  }

  /** What an attempt adds to the remote. */
  lemma Added(clone: Clone, remote: seq<Commit>, patches: seq<Patch>, w: Weather)
    ensures var a := Try(clone, remote, patches, w);
      && remote <= a.remote
      && (a.verdict.Lands? <==>
        && w.treeOpen && w.pull == Pulled && (forall i | 0 <= i < |patches| :: w.Import(i) in {Applied, AppliedOnRetry, Swallowed})
        && w.format != FormatError && w.push == Pushed && w.racing == [])
      && var added := a.remote[|remote|..];
        && (a.verdict.Lands? ==> IsBlockOf(added, patches, w) && a.verdict.commit == Last(added))
        && (!a.verdict.Lands? ==>
          added == if w.treeOpen && w.pull == Pulled && w.format != FormatError
            && forall i | 0 <= i < |patches| :: w.Import(i) in {Applied, AppliedOnRetry, Swallowed} then w.racing else [])
  {
    TryEffect(clone, remote, 0, patches, w);
    BlockIsBlock(patches, w);
    hide Block, IsBlockOf, Try;
    assert forall i :: IsCommitted(w.Import(i)) <==> w.Import(i) in {Applied, AppliedOnRetry, Swallowed};
    hide IsCommitted;
  }

  /** Running the claimed job is a step that concludes it by this attempt. */
  ghost predicate RunsAs(st: State, path: seq<RevisionId>, w: Weather, a: Attempt) {
    && st.running.Some? && st.running.value in st.jobs && Enabled(st, Running(path, w))
    && var j, repo := st.running.value, st.jobs[st.running.value].repo;
      Next(st, Running(path, w)) == st.(jobs := st.jobs[j := Conclude(st.jobs[j], a.verdict)], running := None,
        remotes := st.remotes[repo := a.remote], clones := st.clones[repo := a.clone])
  }

  lemma RunIsStep(st: State, path: seq<RevisionId>, w: Weather, clone: Clone, remote: seq<Commit>)
    requires CanRun(st, path)
    requires var repo := st.jobs[st.running.value].repo; st.clones[repo] == clone && st.remotes[repo] == remote
    ensures RunsAs(st, path, w, Try(clone, remote, PatchesOf(st.revisions, path), w))
  {
    hide Try, Conclude;
  }

  lemma CommittedIff(r: ImportResult)
    ensures IsCommitted(r) <==> r in {Applied, AppliedOnRetry, Swallowed}
  {
  }

  lemma OneImported(patches: seq<Patch>, w: Weather, i: nat)
    requires i < |patches|
    ensures ImportedCommits(patches, w)[..i + 1] ==
      ImportedCommits(patches, w)[..i] + [Made([if w.Import(i) == Swallowed then Part(patches[i]) else Whole(patches[i])])]
  {
  }

  /** What becomes of a job after an attempt. */
  lemma Outcome(job: Job, clone: Clone, remote: seq<Commit>, patches: seq<Patch>, w: Weather)
    ensures var a := Try(clone, remote, patches, w);
      var job' := Conclude(job, a.verdict);
      && (a.verdict.Lands? <==> job'.status == Landed)
      && job'.status in {Landed, Deferred, Failed}
      && job' == job.(status := job'.status, landedCommit := if a.verdict.Lands? then a.verdict.commit else job.landedCommit)
      && (job'.status == Deferred <==>
        || !w.treeOpen
        || w.pull == ServerError
        || (w.pull == ConversionError && job.attempts < 5)
        || (w.pull == Pulled && (forall i | 0 <= i < |patches| :: w.Import(i) in {Applied, AppliedOnRetry, Swallowed})
            && w.format != FormatError && (w.push == TemporaryPushError || (w.push == Pushed && w.racing != []))))
      && (job'.status == Failed <==>
        && w.treeOpen
        && (|| w.pull == PullError
            || (w.pull == ConversionError && job.attempts >= 5)
            || (w.pull == Pulled && exists i | 0 <= i < |patches| :: w.Import(i) in {Conflict, NoDiffStartLine, ImportError})
            || (w.pull == Pulled && w.format == FormatError)
            || (w.pull == Pulled && w.push == PushError)))
  {
    hide Block;
    TryEffect(clone, remote, 0, patches, w);
    assert forall i :: IsCommitted(w.Import(i)) <==> w.Import(i) !in {Conflict, NoDiffStartLine, ImportError};
  }

  /** An attempt without a successful pull. */
  lemma NothingTried(clone: Clone, remote: seq<Commit>, patches: seq<Patch>, w: Weather)
    requires w.treeOpen && w.pull != Pulled
    ensures Try(clone, remote, patches, w) == Attempt(Clone(if w.pulledAnyway then remote else clone.published, [], []), remote,
      match w.pull case ServerError => Defers case ConversionError => ConversionFails case _ => Fails)
  {
  }

  /** The three ways in which an attempt can end after a successful pull. */
  lemma PatchesTried(remote: seq<Commit>, patches: seq<Patch>, w: Weather)
    requires w.treeOpen && w.pull == Pulled
    ensures var a, block, found := Try(Clone(remote, [], []), remote, patches, w), Block(patches, w), remote + w.racing;
      && ((exists i | 0 <= i < |patches| :: !IsCommitted(w.Import(i))) ==> a == Attempt(Clone(remote, [], []), remote, Fails))
      && ((forall i | 0 <= i < |patches| :: IsCommitted(w.Import(i))) && w.format == FormatError ==>
          a == Attempt(Clone(remote, [], []), remote, Fails))
      && ((forall i | 0 <= i < |patches| :: IsCommitted(w.Import(i))) && w.format != FormatError ==>
          a == if w.push == Pushed && found == remote then Attempt(Clone(remote + block, [], []), remote + block, Lands(Last(block)))
               else Attempt(Clone(remote, [], []), found, if w.push == PushError then Fails else Defers))
  {
    hide Block, IsCommitted;
  }

  lemma BlockIs(patches: seq<Patch>, w: Weather)
    ensures Block(patches, w) == Format(ImportedCommits(patches, w), w.format)
  {
  }

  lemma IndexTaken(associations: Associations, j: JobId, path: seq<RevisionId>, n: nat)
    requires IsSortedPath(associations, j, path)
    ensures n < |path| ==> exists key | key in associations :: key.0 == j && associations[key].index == Some(n)
  {
    if n < |path| {
      var key := (j, path[n]);
      assert key in associations && associations[key].index == Some(n);
    }
  }

  lemma PositionOf(associations: Associations, j: JobId, path: seq<RevisionId>, r: RevisionId) returns (i: nat)
    requires IsSortedPath(associations, j, path) && (j, r) in associations
    ensures i < |path| && path[i] == r && associations[(j, r)].index == Some(i)
  {
    assert r in path;
    i :| 0 <= i < |path| && path[i] == r;
    assert (j, path[i]) in associations;
  }

  /** Rows that agree with the request are the rows that a submission writes. */
  lemma AssociationsAre(before: Associations, j: JobId, path: seq<Requested>, after: Associations)
    requires Distinct(RevisionsOf(path)) && forall key | key in before :: key.0 != j
    requires forall key :: key in after <==> key in before || (key.0 == j && key.1 in RevisionsOf(path))
    requires forall key | key in before :: after[key] == before[key]
    requires forall i | 0 <= i < |path| :: after[(j, RevisionsOf(path)[i])] == Association(Some(i), Some(path[i].diff))
    ensures after == Associate(before, j, path)
  {
    forall k: JobId, r: RevisionId
      ensures (k, r) in after <==> (k, r) in Associate(before, j, path)
      ensures (k, r) in after ==> after[(k, r)] == Associate(before, j, path)[(k, r)]
    {
      AssociateEffect(before, j, path, k, r);
      var key := (k, r);
      if k == j && r in RevisionsOf(path) {
        var i :| 0 <= i < |path| && RevisionsOf(path)[i] == r;
      }
    }
    assert forall key | key in after :: key == (key.0, key.1);
  }
}
