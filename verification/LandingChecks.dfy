/** Assessing a stack: the checks, and the loop that prunes blocked revisions. */
module LandingChecks {

  import opened Options
  import opened Stacks
  import opened Assessments

  /** A repository Lando lands to, with the groups of its access level. */
  datatype Repo = Repo(shortName: string, activeGroup: string, membershipGroup: string, displayName: string)

  /** The revision-level checks, under the names they have in the source. */
  datatype Check =
    | UserScmLevel
    | UnsupportedRepo
    | OpenParents
    | ClosedRevisions
    | LatestDiffs
    | AuthorPlannedChanges
    | DiffAuthorIsKnown
    | UpliftApproval
    | RevisionDataClassification
    | PreventSymlinks
    | TryTaskConfig
    | OpenAncestor

  const REVISION_BLOCKER_CHECKS: seq<Check> := [
    UserScmLevel,
    UnsupportedRepo,
    OpenParents,
    ClosedRevisions,
    LatestDiffs,
    AuthorPlannedChanges,
    DiffAuthorIsKnown,
    UpliftApproval,
    RevisionDataClassification,
    PreventSymlinks,
    TryTaskConfig,
    OpenAncestor
  ]

  /** What the checks read of one revision. `local` holds the complaints of the checks
      that look at nothing but the revision and its diff. */
  datatype Revision = Revision(
    id: int,
    repo: Option<Phid>,
    closed: bool,
    latestDiff: int,
    local: map<Check, string>,
    warnings: seq<Option<RevisionWarning>>
  )

  /** A landing request: who asks, and the path of revisions with their diffs. */
  datatype LandingRequest = LandingRequest(groups: set<string>, hasEmail: bool, path: seq<(Phid, int)>)

  /** Everything an assessment reads and does not change. `order` is the iteration order
      of the revisions; nothing forces it to be parents-first. */
  datatype Context = Context(
    revisions: map<Phid, Revision>,
    order: seq<Phid>,
    stack: Graph,
    landableRepos: map<Phid, Repo>,
    alreadyRequested: bool,
    request: Option<LandingRequest>
  ) {
    /** The fetched data is complete: the stack and the order cover exactly the revisions,
        and a requested path names revisions of the stack. */
    ghost predicate Valid() {
      && stack.Closed()
      && stack.nodes == revisions.Keys
      && Enumerates(order, stack)
      && (request.Some? ==> forall i | 0 <= i < |request.value.path| :: request.value.path[i].0 in revisions)
    }

    /** Revisions whose complaints block this assessment. */
    function BlockingPhids(): set<Phid> {
      if request.Some? then set i | 0 <= i < |request.value.path| :: request.value.path[i].0 else revisions.Keys
    }

    function OpenParentsOf(v: Phid): set<Phid>
      requires Valid()
    {
      set p | p in stack.Parents(v) && !revisions[p].closed
    }

    function RequestedPath(): seq<Phid>
      requires request.Some?
    {
      seq(|request.value.path|, i requires 0 <= i < |request.value.path| => request.value.path[i].0)
    }
  }

  /** A visiting order made of revisions of the stack. */
  predicate Known(ctx: Context, order: seq<Phid>) {
    forall k | 0 <= k < |order| :: order[k] in ctx.revisions
  }

  // ---------------------------------------------------------------------------
  // Revision-level checks
  // ---------------------------------------------------------------------------

  function CheckUserScmLevel(ctx: Context, v: Phid): Option<Reason>
    requires ctx.Valid() && v in ctx.revisions
  {
    if ctx.request.None? then
      None
    else
      var repo := ctx.revisions[v].repo;
      if repo.None? || repo.value !in ctx.landableRepos then
        Some(LandingRepoMissing)
      else
        var r := ctx.landableRepos[repo.value];
        if r.activeGroup in ctx.request.value.groups then None
        else if r.membershipGroup in ctx.request.value.groups then Some(AccessExpired(r.displayName))
        else Some(InsufficientPermissions(r.displayName))
  }

  function CheckUnsupportedRepo(ctx: Context, v: Phid): Option<Reason>
    requires ctx.Valid() && v in ctx.revisions
  {
    var repo := ctx.revisions[v].repo;
    if repo.None? then Some(RepoUnset)
    else if repo.value !in ctx.landableRepos then Some(RepoNotSupported)
    else None
  }

  /** The check that depends on what was removed so far: `alive` is the landable stack's nodes. */
  function CheckOpenParents(ctx: Context, alive: set<Phid>, v: Phid): Option<Reason>
    requires ctx.Valid() && v in ctx.revisions
  {
    var open := ctx.OpenParentsOf(v);
    if open == {} then
      None
    else if |open| > 1 then
      Some(MultipleOpenParents)
    else
      var p := TheOnly(open);
      if p !in alive then Some(OpenParentBlocked(ctx.revisions[p].id))
      else if ctx.revisions[v].repo != ctx.revisions[p].repo then Some(OpenParentOtherRepo(ctx.revisions[p].id))
      else None
  }

  function TheOnly<T(==)>(s: set<T>): (x: T)
    requires |s| == 1
    ensures s == {x}
  {
    SingletonSet(s);
    var x :| x in s && s == {x};
    x
  }

  lemma SingletonSet<T>(s: set<T>)
    requires |s| == 1
    ensures exists x :: x in s && s == {x}
    ensures forall x, y | x in s && y in s :: x == y
  {
    var x :| x in s;
    assert |s - {x}| == 0;
    assert s == {x};
  }

  /** Python's `dict(path).get(v)`: a later pair overrides an earlier one. */
  function RequestedDiff(path: seq<(Phid, int)>, v: Phid): Option<int>
    decreases |path|
  {
    if path == [] then None
    else if path[|path| - 1].0 == v then Some(path[|path| - 1].1)
    else RequestedDiff(path[..|path| - 1], v)
  }

  function CheckLatestDiffs(ctx: Context, v: Phid): Option<Reason>
    requires ctx.Valid() && v in ctx.revisions
  {
    if ctx.request.Some? && Some(ctx.revisions[v].latestDiff) != RequestedDiff(ctx.request.value.path, v)
    then Some(DiffNotLatest)
    else None
  }

  function RunCheck(ctx: Context, check: Check, alive: set<Phid>, v: Phid): Option<Reason>
    requires ctx.Valid() && v in ctx.revisions
  {
    match check
    case UserScmLevel => CheckUserScmLevel(ctx, v)
    case UnsupportedRepo => CheckUnsupportedRepo(ctx, v)
    case OpenParents => CheckOpenParents(ctx, alive, v)
    case ClosedRevisions => if ctx.revisions[v].closed then Some(RevisionClosed) else None
    case LatestDiffs => CheckLatestDiffs(ctx, v)
    case OpenAncestor => if v !in alive then Some(OpenAncestorBlocked) else None
    case _ => if check in ctx.revisions[v].local then Some(Local(ctx.revisions[v].local[check])) else None
  }

  // ---------------------------------------------------------------------------
  // Stack-level checks
  // ---------------------------------------------------------------------------

  function CheckLandingPathValid(ctx: Context, landable: Graph): Option<Reason> {
    if ctx.request.Some? && !IsSimplePath(landable, ctx.RequestedPath()) then Some(PathNotValid) else None
  }

  function CheckAlreadyRequested(ctx: Context): Option<Reason> {
    if ctx.alreadyRequested then Some(LandingInProgress) else None
  }

  function CheckNoEmail(ctx: Context): Option<Reason> {
    if ctx.request.Some? && !ctx.request.value.hasEmail then Some(NoVerifiedEmail) else None
  }

  /** The repository a path lands to: leading revisions without one are skipped, every
      revision after the first that has one must agree with it. */
  datatype PathRepo = NoRepo | Mixed | Single(repo: Phid)

  ghost function RepoOfPath(repos: seq<Option<Phid>>): PathRepo {
    if forall i | 0 <= i < |repos| :: repos[i].None? then
      NoRepo
    else if exists k | 0 <= k < |repos| :: SettledAt(repos, k) then
      var k :| 0 <= k < |repos| && SettledAt(repos, k);
      Single(repos[k].value)
    else
      Mixed
  }

  predicate SettledAt(repos: seq<Option<Phid>>, k: nat)
    requires k < |repos|
  {
    && repos[k].Some?
    && (forall i | 0 <= i < k :: repos[i].None?)
    && (forall i | k < i < |repos| :: repos[i] == repos[k])
  }

  function PathRepos(ctx: Context): seq<Option<Phid>>
    requires ctx.Valid() && ctx.request.Some?
  {
    seq(|ctx.request.value.path|, i requires 0 <= i < |ctx.request.value.path| =>
      ctx.revisions[ctx.request.value.path[i].0].repo)
  }

  ghost function CheckSingleLandingRepo(ctx: Context): Option<Reason>
    requires ctx.Valid()
  {
    if ctx.request.None? then None
    else match RepoOfPath(PathRepos(ctx))
      case NoRepo => Some(PathWithoutRepo)
      case Mixed => Some(PathMixesRepos)
      case Single(_) => None
  }

  ghost function LandingRepoOf(ctx: Context): Option<Repo>
    requires ctx.Valid()
  {
    if ctx.request.None? then None
    else match RepoOfPath(PathRepos(ctx))
      case Single(r) => if r in ctx.landableRepos then Some(ctx.landableRepos[r]) else None
      case _ => None
  }

  predicate IsPrefixOfLandablePath(landable: Graph, requested: seq<Phid>, path: seq<Phid>) {
    IsRootToLeaf(landable, path) && requested <= path
  }

  ghost function CheckLandingPathLandable(ctx: Context, landable: Graph): Option<Reason> {
    if ctx.request.Some? && !exists path :: IsPrefixOfLandablePath(landable, ctx.RequestedPath(), path)
    then Some(PathNotLandable)
    else None
  }

  function ToSeq<T>(o: Option<T>): seq<T> {
    if o.Some? then [o.value] else []
  }

  // ---------------------------------------------------------------------------
  // The pruning loop as a function of the state it changes
  // ---------------------------------------------------------------------------

  /** What the revision loop changes: the landable stack, the recorded reasons per node
      and the blockers of the assessment. */
  datatype Progress = Progress(landable: Graph, blocked: map<Phid, seq<Reason>>, blockers: seq<Reason>)

  ghost predicate Consistent(ctx: Context, pr: Progress) {
    pr.landable == ctx.stack.Restrict(pr.landable.nodes) && pr.landable.nodes <= ctx.stack.nodes
    && pr.blocked.Keys == ctx.stack.nodes
  }

  ghost function Apply(ctx: Context, check: Check, v: Phid, pr: Progress): Progress
    requires ctx.Valid() && v in ctx.revisions && Consistent(ctx, pr)
  {
    var reason := RunCheck(ctx, check, pr.landable.nodes, v);
    if reason.None? then
      pr
    else
      var blockers := if v in ctx.BlockingPhids() then pr.blockers + [reason.value] else pr.blockers;
      if v in pr.landable.nodes then
        Progress(pr.landable.Remove(v), pr.blocked[v := pr.blocked[v] + [reason.value]], blockers)
      else
        pr.(blockers := blockers)
  }

  ghost function ApplyAll(ctx: Context, checks: seq<Check>, v: Phid, pr: Progress): (r: Progress)
    requires ctx.Valid() && v in ctx.revisions && Consistent(ctx, pr)
    ensures Consistent(ctx, r)
    ensures pr.landable.nodes - {v} <= r.landable.nodes <= pr.landable.nodes
    decreases |checks|
  {
    if checks == [] then pr
    else Apply(ctx, checks[|checks| - 1], v, ApplyAll(ctx, checks[..|checks| - 1], v, pr))
  }

  lemma NoChecksApplied(ctx: Context, v: Phid, pr: Progress)
    requires ctx.Valid() && v in ctx.revisions && Consistent(ctx, pr)
    ensures ApplyAll(ctx, [], v, pr) == pr
  {
  }

  lemma OneMoreCheck(ctx: Context, checks: seq<Check>, i: nat, v: Phid, pr: Progress)
    requires ctx.Valid() && v in ctx.revisions && Consistent(ctx, pr) && i < |checks|
    ensures ApplyAll(ctx, checks[..i + 1], v, pr) == Apply(ctx, checks[i], v, ApplyAll(ctx, checks[..i], v, pr))
  {
    hide Apply;
    assert checks[..i + 1][..i] == checks[..i];
  }

  ghost function Visit(ctx: Context, order: seq<Phid>, pr: Progress): (r: Progress)
    requires ctx.Valid() && Consistent(ctx, pr) && Known(ctx, order)
    ensures Consistent(ctx, r)
    decreases |order|
  {
    if order == [] then pr
    else ApplyAll(ctx, REVISION_BLOCKER_CHECKS, order[|order| - 1], Visit(ctx, order[..|order| - 1], pr))
  }

  ghost function Unpruned(ctx: Context): (pr: Progress)
    requires ctx.Valid()
    ensures Consistent(ctx, pr)
  {
    Progress(ctx.stack, map v | v in ctx.stack.nodes :: [], [])
  }

  /** The outcome of the revision loop when the revisions are visited in `order`. */
  ghost function Pruned(ctx: Context, order: seq<Phid>): (pr: Progress)
    requires ctx.Valid() && Known(ctx, order)
    ensures Consistent(ctx, pr)
  {
    Visit(ctx, order, Unpruned(ctx))
  }

  // ---------------------------------------------------------------------------
  // The assessment as the program runs it
  // ---------------------------------------------------------------------------

  /** All warnings of the revisions that take part in the assessment, in visiting order. */
  function CollectWarnings(ctx: Context, order: seq<Phid>): seq<RevisionWarning>
    requires ctx.Valid() && Known(ctx, order)
    decreases |order|
  {
    if order == [] then []
    else
      var v := order[|order| - 1];
      CollectWarnings(ctx, order[..|order| - 1])
      + (if v in ctx.BlockingPhids() then Present(ctx.revisions[v].warnings) else [])
  }

  function Present<T>(results: seq<Option<T>>): seq<T>
    decreases |results|
  {
    if results == [] then []
    else Present(results[..|results| - 1]) + ToSeq(results[|results| - 1])
  }

  /** The blockers of a whole assessment, in the order in which they are found. */
  ghost function AssessmentBlockers(ctx: Context): seq<Reason>
    requires ctx.Valid() && Known(ctx, ctx.order)
  {
    var pruned := Pruned(ctx, ctx.order);
    ToSeq(CheckLandingPathValid(ctx, ctx.stack)) + ToSeq(CheckAlreadyRequested(ctx))
    + ToSeq(CheckNoEmail(ctx)) + ToSeq(CheckSingleLandingRepo(ctx))
    + pruned.blockers
    + ToSeq(CheckLandingPathLandable(ctx, pruned.landable))
  }

  class StackAssessmentState {
    const ctx: Context
    const landableStack: RevisionStack
    var blocked: map<Phid, seq<Reason>>
    var landingRepo: Option<Repo>

    ghost predicate Valid()
      reads this, landableStack
    {
      ctx.Valid() && landableStack.Valid()
    }

    /** Nothing has been assessed yet: the landable stack is a fresh copy of the stack. */
    ghost predicate Initial()
      reads this, landableStack
    {
      && Valid()
      && landableStack.graph == ctx.stack
      && blocked == (map v | v in ctx.stack.nodes :: [])
      && landingRepo == None
    }

    constructor FromAssessment(ctx: Context, stack: RevisionStack)
      requires ctx.Valid() && stack.Valid() && stack.graph == ctx.stack
      ensures this.ctx == ctx && Initial() && fresh(landableStack)
    {
      this.ctx := ctx;
      landableStack := new RevisionStack.Copy(stack);
      blocked := map v | v in stack.graph.nodes :: [];
      landingRepo := None;
    }

    /** Requires one repository for the whole path and remembers it as the landing repository. */
    method BlockerSingleLandingRepo() returns (reason: Option<Reason>)
      requires Valid() && landingRepo == None
      modifies this`landingRepo
      ensures reason == CheckSingleLandingRepo(ctx)
      ensures landingRepo == LandingRepoOf(ctx)
    {
      if ctx.request.None? {
        return None;
      }
      var path := ctx.request.value.path;
      ghost var repos, first := PathRepos(ctx), 0;
      var repoPhid: Option<Phid> := None;
      for k := 0 to |path|
        invariant repoPhid.None? ==> forall i | 0 <= i < k :: repos[i].None?
        invariant repoPhid.Some? ==> FoundAt(repos, first, k) && repos[first] == repoPhid
      {
        var revisionRepo := ctx.revisions[path[k].0].repo;
        if repoPhid.None? {
          repoPhid := revisionRepo;
          first := k;
        } else if revisionRepo != repoPhid {
          assert repos[k] != repos[first];
          return Some(PathMixesRepos);
        }
      }
      if repoPhid.None? {
        return Some(PathWithoutRepo);
      }
      assert SettledAt(repos, first);
      if repoPhid.value in ctx.landableRepos {
        landingRepo := Some(ctx.landableRepos[repoPhid.value]);
      }
      return None;
    }

    /** Compares the requested path with every landable path of the pruned stack. */
    method BlockerStackLandingPathLandable() returns (reason: Option<Reason>)
      requires Valid()
      ensures reason == CheckLandingPathLandable(ctx, landableStack.graph)
    {
      if ctx.request.None? {
        return None;
      }
      var requested := ctx.RequestedPath();
      var paths := landableStack.LandablePaths();
      for i := 0 to |paths|
        invariant forall j | 0 <= j < i :: !(requested <= paths[j])
      {
        if |requested| <= |paths[i]| && requested == paths[i][..|requested|] {
          assert paths[i] in paths;
          assert IsPrefixOfLandablePath(landableStack.graph, requested, paths[i]);
          return None;
        }
      }
      forall path
        ensures !IsPrefixOfLandablePath(landableStack.graph, requested, path)
      {
        assert path in paths <==> IsRootToLeaf(landableStack.graph, path);
      }
      return Some(PathNotLandable);
    }

    /** Runs every revision check on one revision, removing the revision from the landable
        stack at the first complaint and recording that complaint. */
    method CheckRevision(v: Phid, blockers: seq<Reason>) returns (allBlockers: seq<Reason>)
      requires Valid() && v in ctx.revisions
      requires Consistent(ctx, Progress(landableStack.graph, blocked, blockers))
      modifies this`blocked, landableStack
      ensures Valid()
      ensures Progress(landableStack.graph, blocked, allBlockers)
        == ApplyAll(ctx, REVISION_BLOCKER_CHECKS, v, old(Progress(landableStack.graph, blocked, blockers)))
    {
      hide RunCheck, ApplyAll;
      var checks := REVISION_BLOCKER_CHECKS;
      allBlockers := blockers;
      ghost var before := Progress(landableStack.graph, blocked, blockers);
      NoChecksApplied(ctx, v, before);
      for i := 0 to |checks|
        invariant Valid()
        invariant Progress(landableStack.graph, blocked, allBlockers) == ApplyAll(ctx, checks[..i], v, before)
      {
        OneMoreCheck(ctx, checks, i, v, before);
        var reason := RunCheck(ctx, checks[i], landableStack.graph.nodes, v);
        if reason.None? {
          continue;
        }
        if v in ctx.BlockingPhids() {
          allBlockers := allBlockers + [reason.value];
        }
        if v in landableStack.graph.nodes {
          landableStack.RemoveNode(v);
          blocked := blocked[v := blocked[v] + [reason.value]];
        }
      }
      assert checks[..|checks|] == checks;
    }

    /** Visits the revisions in the order of the fetched data, whatever that order is. */
    method RunRevisionChecks() returns (blockers: seq<Reason>)
      requires Valid() && landableStack.graph == ctx.stack
      requires blocked == (map v | v in ctx.stack.nodes :: [])
      modifies this`blocked, landableStack
      ensures Valid()
      ensures Progress(landableStack.graph, blocked, blockers) == Pruned(ctx, ctx.order)
    {
      hide ApplyAll;
      blockers := [];
      var order := ctx.order;
      for i := 0 to |order|
        invariant Valid()
        invariant Known(ctx, order)
        invariant Progress(landableStack.graph, blocked, blockers) == Pruned(ctx, order[..i])
      {
        assert order[..i + 1][..i] == order[..i];
        blockers := CheckRevision(order[i], blockers);
      }
      assert order[..|order|] == order;
    }

    /** Runs the warning checks on one revision and keeps what they report if it counts. */
    method CheckRevisionWarnings(v: Phid) returns (warnings: seq<RevisionWarning>)
      requires Valid() && v in ctx.revisions
      ensures warnings == if v in ctx.BlockingPhids() then Present(ctx.revisions[v].warnings) else []
    {
      warnings := [];
      var results := ctx.revisions[v].warnings;
      for k := 0 to |results|
        invariant warnings == if v in ctx.BlockingPhids() then Present(results[..k]) else []
      {
        assert results[..k + 1][..k] == results[..k];
        if results[k].None? {
          continue;
        }
        if v in ctx.BlockingPhids() {
          warnings := warnings + [results[k].value];
        }
      }
      assert results[..|results|] == results;
    }

    method RunWarningChecks() returns (warnings: seq<RevisionWarning>)
      requires Valid()
      ensures warnings == CollectWarnings(ctx, ctx.order)
    {
      warnings := [];
      var order := ctx.order;
      for i := 0 to |order|
        invariant Known(ctx, order)
        invariant warnings == CollectWarnings(ctx, order[..i])
      {
        assert order[..i + 1][..i] == order[..i];
        var found := CheckRevisionWarnings(order[i]);
        warnings := warnings + found;
      }
      assert order[..|order|] == order;
    }

    method RunLandingChecks() returns (blockers: seq<Reason>, warnings: seq<RevisionWarning>)
      requires Initial()
      modifies this`blocked, this`landingRepo, landableStack
      ensures Valid()
      ensures landableStack.graph == Pruned(ctx, ctx.order).landable
      ensures blocked == Pruned(ctx, ctx.order).blocked
      ensures blockers == AssessmentBlockers(ctx)
      ensures warnings == CollectWarnings(ctx, ctx.order)
      ensures landingRepo == LandingRepoOf(ctx)
    {
      var stackBlockers := ToSeq(CheckLandingPathValid(ctx, landableStack.graph))
        + ToSeq(CheckAlreadyRequested(ctx)) + ToSeq(CheckNoEmail(ctx));
      var reason := BlockerSingleLandingRepo();
      stackBlockers := stackBlockers + ToSeq(reason);
      var found := RunRevisionChecks();
      warnings := RunWarningChecks();
      var last := BlockerStackLandingPathLandable();
      blockers := stackBlockers + found + ToSeq(last);
    }
  }

  /** The first repository found among `repos[..k]` is at `first`, and agrees with the rest. */
  ghost predicate FoundAt(repos: seq<Option<Phid>>, first: nat, k: nat) {
    && first < k <= |repos|
    && repos[first].Some?
    && (forall i | 0 <= i < first :: repos[i].None?)
    && (forall i | first < i < k :: repos[i] == repos[first])
  }
}
