/** Submitting a landing request: from its assessment to the job in the queue. */
module Submissions {

  import opened Options
  import opened Sequences
  import opened Stacks
  import opened Assessments
  import Checks = LandingChecks
  import opened Landability
  import opened LandingJobs
  import opened LandingProtocol
  import opened LandingWorker

  function StackIds(ctx: Checks.Context): set<RevisionId> {
    set v | v in ctx.revisions :: ctx.revisions[v].id
  }

  /** The request is about the tables: revisions have numbers of their own, and the flag that the
      assessment looks at says whether an active job holds one of them. */
  ghost predicate Describes(ctx: Checks.Context, st: State) {
    && ctx.Valid() && ctx.request.Some?
    && (forall v, u | v in ctx.revisions && u in ctx.revisions && ctx.revisions[v].id == ctx.revisions[u].id :: v == u)
    && ctx.alreadyRequested == AlreadyRequested(st, StackIds(ctx))
  }

  /** The requested revisions with their latest diffs, and the patches built for them. */
  function RequestOf(ctx: Checks.Context, patches: seq<Patch>): (r: seq<Requested>)
    requires ctx.Valid() && ctx.request.Some? && |patches| == |ctx.request.value.path|
    ensures |r| == |patches|
  {
    seq(|patches|, i requires 0 <= i < |patches| =>
      var revision := ctx.revisions[ctx.request.value.path[i].0];
      Requested(revision.id, revision.latestDiff, patches[i]))
  }

  /** On a path without repetitions the last pair for a revision is its only one. */
  lemma OnlyPair(ctx: Checks.Context, i: nat, latest: int)
    requires ctx.request.Some? && i < |ctx.request.value.path| && Distinct(ctx.RequestedPath())
    requires AsksForLatest(ctx.request.value.path, ctx.request.value.path[i].0, latest)
    ensures ctx.request.value.path[i].1 == latest
  {
    var path, v := ctx.request.value.path, ctx.request.value.path[i].0;
    var k :| 0 <= k < |path| && path[k] == (v, latest) && forall j | k < j < |path| :: path[j].0 != v;
    assert ctx.RequestedPath()[i] == v && ctx.RequestedPath()[k] == v;
  }

  lemma RequestIsPath(ctx: Checks.Context, st: State, patches: seq<Patch>)
    requires Describes(ctx, st) && |patches| == |ctx.request.value.path| && IsSimplePath(ctx.stack, ctx.RequestedPath())
    ensures IsRequest(RequestOf(ctx, patches), StackIds(ctx)) && Distinct(RevisionsOf(RequestOf(ctx, patches)))
  {
    var path, request := ctx.RequestedPath(), RequestOf(ctx, patches);
    forall i | 0 <= i < |request|
      ensures request[i].revision == ctx.revisions[path[i]].id && request[i].revision in StackIds(ctx)
    {
      assert path[i] == ctx.request.value.path[i].0;
    }
    forall i, j | 0 <= i < j < |request|
      ensures RevisionsOf(request)[i] != RevisionsOf(request)[j]
    {
      assert path[i] != path[j];
    }
  }

  lemma NotHeld(st: State, stack: set<RevisionId>, request: seq<Requested>)
    requires IsRequest(request, stack) && !AlreadyRequested(st, stack)
    ensures !RecheckFails(st, request)
  {
    assert forall i | 0 <= i < |request| :: RevisionsOf(request)[i] in stack;
  }

  /** A request without blockers may be submitted: it is a path of distinct revisions of the stack,
      no active job holds any of the stack, the second look will find nothing, the diffs are the ones
      that the user asked for, all revisions are in one repository to land to, and the user is in its
      active group. */
  lemma UnblockedMayBeSubmitted(ctx: Checks.Context, st: State, patches: seq<Patch>, requester: string, priority: int)
    requires Describes(ctx, st) && |patches| == |ctx.request.value.path| && Checks.Known(ctx, ctx.order)
    requires Checks.AssessmentBlockers(ctx) == []
    ensures Checks.LandingRepoOf(ctx).Some? && Checks.LandingRepoOf(ctx).value.activeGroup in ctx.request.value.groups
    ensures var request, repo := RequestOf(ctx, patches), RepoName(Checks.LandingRepoOf(ctx).value.shortName);
      && IsRequest(request, StackIds(ctx)) && Distinct(RevisionsOf(request)) && !AlreadyRequested(st, StackIds(ctx)) && !RecheckFails(st, request)
      && (repo in st.remotes && repo in st.clones ==>
          Enabled(st, Submission(StackIds(ctx), request, repo, requester, priority)))
    ensures forall i | 0 <= i < |patches| ::
      var pair, p := ctx.request.value.path[i], RequestOf(ctx, patches)[i];
      && p == Requested(ctx.revisions[pair.0].id, pair.1, patches[i])
      && HasLandableRepo(ctx, pair.0) && RepoOf(ctx, pair.0) == Checks.LandingRepoOf(ctx).value
  {
    UnblockedRequest(ctx);
    hide Checks.AssessmentBlockers, Checks.Pruned, Checks.LandingRepoOf, LandsInOrder, OpenParentsSeenBefore, IsRootToLeaf,
         LandableGiven, AlreadyRequested, RecheckFails, IsRequest, StackIds, AsksForLatest;
    var request, path := RequestOf(ctx, patches), ctx.RequestedPath();
    RequestIsPath(ctx, st, patches);
    NotHeld(st, StackIds(ctx), request);
    assert Distinct(path) && path != [];
    hide IsSimplePath;
    forall i | 0 <= i < |patches|
      ensures request[i] == Requested(ctx.revisions[path[i]].id, ctx.request.value.path[i].1, patches[i])
      ensures path[i] == ctx.request.value.path[i].0
    {
      assert AsksForLatest(ctx.request.value.path, path[i], ctx.revisions[path[i]].latestDiff);
      OnlyPair(ctx, i, ctx.revisions[path[i]].latestDiff);
    }
  }

  /** Assesses the request, asks for its warnings to be acknowledged, and creates its job. A job is
      created exactly when nothing blocks the request and the token acknowledges the current
      warnings; otherwise the tables stay as they are. */
  method Post(queue: Queue, state: Checks.StackAssessmentState, token: Option<Token>, patches: seq<Patch>, requester: string)
    returns (r: Result<JobId, Refusal>)
    requires state.Initial() && Describes(state.ctx, queue.View(map[], map[]))
    requires |patches| == |state.ctx.request.value.path|
    requires forall key | key in queue.associations :: key.0 in queue.jobs && key.0 < queue.nextJob
    modifies queue, state`blocked, state`landingRepo, state.landableStack
    ensures Checks.Known(state.ctx, state.ctx.order)
    ensures var ctx := state.ctx;
      var warnings := Checks.CollectWarnings(ctx, ctx.order);
      && (r.Ok? <==> Checks.AssessmentBlockers(ctx) == [] && token == ConfirmationToken(warnings))
      && (r == Err(Blocked) <==> Checks.AssessmentBlockers(ctx) != [])
      && (r == Err(Unacknowledged) <==> Checks.AssessmentBlockers(ctx) == [] && warnings != [] && token == None)
    ensures r.Err? ==> queue.View(map[], map[]) == old(queue.View(map[], map[]))
    ensures r.Ok? ==>
      var ctx := state.ctx;
      && r.value == old(queue.nextJob) && Checks.LandingRepoOf(ctx).Some?
      && queue.View(map[], map[]) == LandingProtocol.Submit(old(queue.View(map[], map[])), RequestOf(ctx, patches),
           RepoName(Checks.LandingRepoOf(ctx).value.shortName), requester, 0)
    ensures r.Ok? ==>
      var ctx := state.ctx;
      var path, repo := ctx.request.value.path, Checks.LandingRepoOf(ctx).value;
      && repo.activeGroup in ctx.request.value.groups
      && queue.jobs == old(queue.jobs)[r.value := Job(Submitted, RepoName(repo.shortName), requester, 0, queue.now, 0, None)]
      && forall i | 0 <= i < |path| ::
        var revision := ctx.revisions[path[i].0];
        && revision.repo.Some? && revision.repo.value in ctx.landableRepos && ctx.landableRepos[revision.repo.value] == repo
        && revision.id in queue.revisions && queue.revisions[revision.id] == Revision(path[i].1, patches[i])
        && (r.value, revision.id) in queue.associations
        && queue.associations[(r.value, revision.id)] == Association(Some(i), Some(path[i].1))
  {
    hide Checks.AssessmentBlockers, Checks.Pruned, Checks.LandingRepoOf, Checks.CollectWarnings, ConfirmationToken,
         AlreadyRequested, RecheckFails, IsRequest, StackIds, LandingProtocol.Submit;
    var ctx := state.ctx;
    var blockers, warnings := state.RunLandingChecks();
    var assessment := new StackAssessment(blockers, warnings);
    var acknowledged := assessment.RaiseIfBlockedOrUnacknowledged(token);
    if acknowledged.Err? {
      return Err(acknowledged.error);
    }
    UnblockedMayBeSubmitted(ctx, queue.View(map[], map[]), patches, requester, 0);
    hide RequestOf;
    var id := queue.Post(RequestOf(ctx, patches), RepoName(state.landingRepo.value.shortName), requester, 0);
    return Ok(id.value);
  }
}
