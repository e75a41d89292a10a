/** Which reasons an assessment gives, in terms of the fetched data alone. */
module Blockers {

  import opened Options
  import opened Sequences
  import opened Stacks
  import opened Assessments
  import opened LandingChecks
  import opened Landability

  /** Whether the complaints about a revision block this assessment: without a request those about
      every revision do, with a request those about the requested ones. */
  predicate Counts(ctx: Context, v: Phid) {
    v in ctx.revisions && (ctx.request.Some? ==> exists k | 0 <= k < |ctx.request.value.path| :: ctx.request.value.path[k].0 == v)
  }

  // ---------------------------------------------------------------------------
  // What is left
  // ---------------------------------------------------------------------------

  /** Whatever the order, a revision is left exactly when it is open, has a repository that Lando
      lands to, is requested with its latest diff by a member of the active group of that repository if
      there is a request, no check of its own complains, and it has no open parent or a single one,
      which was still there at its turn and is in the same repository. */
  lemma LeftIff(ctx: Context, order: seq<Phid>, i: nat)
    requires ctx.Valid() && Enumerates(order, ctx.stack) && Known(ctx, order) && i < |order|
    ensures var v := order[i];
      v in Left(ctx, order) <==>
        && !ctx.revisions[v].closed
        && HasLandableRepo(ctx, v)
        && (ctx.request.Some? ==>
          && RepoOf(ctx, v).activeGroup in ctx.request.value.groups
          && AsksForLatest(ctx.request.value.path, v, ctx.revisions[v].latestDiff))
        && (forall c | c in LOCAL_CHECKS :: c !in ctx.revisions[v].local)
        && (forall p, q | (p, v) in ctx.stack.edges && (q, v) in ctx.stack.edges && !ctx.revisions[p].closed && !ctx.revisions[q].closed ::
          p == q && p in AliveBefore(ctx, order, i) && ctx.revisions[p].repo == ctx.revisions[v].repo)
  {
    hide Left, AliveBefore, AsksForLatest, PassesLocalChecks;
    var v := order[i];
    Judged(ctx, order, i);
    PassesLocalChecksIff(ctx, v);
    OpenParentsIff(ctx, AliveBefore(ctx, order, i), v);
  }

  lemma OpenParentsIff(ctx: Context, alive: set<Phid>, v: Phid)
    requires ctx.Valid() && v in ctx.revisions
    ensures |ctx.OpenParentsOf(v)| <= 1 && (forall p | p in ctx.OpenParentsOf(v) :: p in alive && ctx.revisions[p].repo == ctx.revisions[v].repo)
      <==> (forall p, q | (p, v) in ctx.stack.edges && (q, v) in ctx.stack.edges && !ctx.revisions[p].closed && !ctx.revisions[q].closed ::
        p == q && p in alive && ctx.revisions[p].repo == ctx.revisions[v].repo)
  {
    var open := ctx.OpenParentsOf(v);
    forall p
      ensures p in open <==> (p, v) in ctx.stack.edges && p in ctx.revisions && !ctx.revisions[p].closed
    {
      OpenParent(ctx, p, v);
    }
    if |open| > 1 {
      var p :| p in open;
      assert |open - {p}| > 0;
      var q :| q in open - {p};
      assert p != q;
    } else if |open| == 1 {
      SingletonSet(open);
    }
  }

  lemma OpenParent(ctx: Context, p: Phid, v: Phid)
    requires ctx.Valid() && v in ctx.revisions
    ensures p in ctx.OpenParentsOf(v) <==> (p, v) in ctx.stack.edges && p in ctx.revisions && !ctx.revisions[p].closed
  {
  }

  // ---------------------------------------------------------------------------
  // Reported blockers
  // ---------------------------------------------------------------------------

  /** What is left when it is the turn of one check on one revision. */
  ghost function AliveAt(ctx: Context, order: seq<Phid>, i: nat, k: nat): set<Phid>
    requires ctx.Valid() && Known(ctx, order) && i < |order| && k <= |REVISION_BLOCKER_CHECKS|
  {
    ApplyAll(ctx, REVISION_BLOCKER_CHECKS[..k], order[i], Pruned(ctx, order[..i])).landable.nodes
  }

  ghost predicate Complains(ctx: Context, order: seq<Phid>, i: int, k: int, reason: Reason)
    requires ctx.Valid() && Known(ctx, order)
  {
    && 0 <= i < |order| && 0 <= k < |REVISION_BLOCKER_CHECKS| && order[i] in ctx.BlockingPhids()
    && RunCheck(ctx, REVISION_BLOCKER_CHECKS[k], AliveAt(ctx, order, i, k), order[i]) == Some(reason)
  }

  ghost predicate ComplainsAt(ctx: Context, checks: seq<Check>, v: Phid, pr: Progress, k: int, reason: Reason)
    requires ctx.Valid() && v in ctx.revisions && Consistent(ctx, pr)
  {
    0 <= k < |checks| && RunCheck(ctx, checks[k], ApplyAll(ctx, checks[..k], v, pr).landable.nodes, v) == Some(reason)
  }

  lemma ApplyBlockers(ctx: Context, check: Check, v: Phid, pr: Progress)
    requires ctx.Valid() && v in ctx.revisions && Consistent(ctx, pr)
    ensures Apply(ctx, check, v, pr).blockers ==
      pr.blockers + (if v in ctx.BlockingPhids() then ToSeq(RunCheck(ctx, check, pr.landable.nodes, v)) else [])
  {
    hide RunCheck;
    assert pr.blockers + [] == pr.blockers;
  }

  lemma OneCheck(ctx: Context, checks: seq<Check>, v: Phid, pr: Progress)
    requires ctx.Valid() && v in ctx.revisions && Consistent(ctx, pr) && checks != []
    ensures var n := |checks| - 1;
      var mid := ApplyAll(ctx, checks[..n], v, pr);
      ApplyAll(ctx, checks, v, pr).blockers ==
        mid.blockers + (if v in ctx.BlockingPhids() then ToSeq(RunCheck(ctx, checks[n], mid.landable.nodes, v)) else [])
  {
    var mid := ApplyAll(ctx, checks[..|checks| - 1], v, pr);
    assert ApplyAll(ctx, checks, v, pr) == Apply(ctx, checks[|checks| - 1], v, mid) by {
      hide Apply;
    }
    hide *;
    ApplyBlockers(ctx, checks[|checks| - 1], v, mid);
  }

  lemma SameComplaint(ctx: Context, checks: seq<Check>, v: Phid, pr: Progress, k: nat, reason: Reason)
    requires ctx.Valid() && v in ctx.revisions && Consistent(ctx, pr) && k < |checks| - 1
    ensures ComplainsAt(ctx, checks[..|checks| - 1], v, pr, k, reason) <==> ComplainsAt(ctx, checks, v, pr, k, reason)
  {
    hide RunCheck, ApplyAll;
    assert checks[..|checks| - 1][..k] == checks[..k];
  }

  lemma {:induction false} BlockerOfCheck(ctx: Context, checks: seq<Check>, v: Phid, pr: Progress, reason: Reason) returns (k: nat)
    requires ctx.Valid() && v in ctx.revisions && Consistent(ctx, pr)
    requires reason in ApplyAll(ctx, checks, v, pr).blockers && reason !in pr.blockers
    ensures v in ctx.BlockingPhids() && ComplainsAt(ctx, checks, v, pr, k, reason)
    decreases |checks|
  {
    if checks == [] {
      assert false;
    } else {
      hide RunCheck, ApplyAll;
      OneCheck(ctx, checks, v, pr);
      var n := |checks| - 1;
      if reason in ApplyAll(ctx, checks[..n], v, pr).blockers {
        k := BlockerOfCheck(ctx, checks[..n], v, pr, reason);
        SameComplaint(ctx, checks, v, pr, k, reason);
      } else {
        k := n;
      }
    }
  }

  lemma {:induction false} CheckBlocks(ctx: Context, checks: seq<Check>, v: Phid, pr: Progress, k: nat, reason: Reason)
    requires ctx.Valid() && v in ctx.BlockingPhids() && v in ctx.revisions && Consistent(ctx, pr)
    requires ComplainsAt(ctx, checks, v, pr, k, reason)
    ensures reason in ApplyAll(ctx, checks, v, pr).blockers
    decreases |checks|
  {
    OneCheck(ctx, checks, v, pr);
    hide RunCheck, ApplyAll;
    if k < |checks| - 1 {
      SameComplaint(ctx, checks, v, pr, k, reason);
      CheckBlocks(ctx, checks[..|checks| - 1], v, pr, k, reason);
    }
  }

  lemma {:induction false} BlockersKept(ctx: Context, checks: seq<Check>, v: Phid, pr: Progress, reason: Reason)
    requires ctx.Valid() && v in ctx.revisions && Consistent(ctx, pr) && reason in pr.blockers
    ensures reason in ApplyAll(ctx, checks, v, pr).blockers
    decreases |checks|
  {
    if checks != [] {
      BlockersKept(ctx, checks[..|checks| - 1], v, pr, reason);
      OneCheck(ctx, checks, v, pr);
    }
  }

  lemma VisitOne(ctx: Context, order: seq<Phid>, i: nat)
    requires ctx.Valid() && Known(ctx, order) && i < |order|
    ensures Pruned(ctx, order[..i + 1]) == ApplyAll(ctx, REVISION_BLOCKER_CHECKS, order[i], Pruned(ctx, order[..i]))
  {
    hide ApplyAll;
    assert order[..i + 1][..i] == order[..i];
  }

  lemma ComplainsWhere(ctx: Context, order: seq<Phid>, i: nat, k: nat, reason: Reason)
    requires ctx.Valid() && Known(ctx, order) && i < |order|
    ensures Complains(ctx, order, i, k, reason) <==>
      order[i] in ctx.BlockingPhids() && ComplainsAt(ctx, REVISION_BLOCKER_CHECKS, order[i], Pruned(ctx, order[..i]), k, reason)
  {
    hide RunCheck, ApplyAll, Pruned;
  }

  lemma NothingReported(ctx: Context, order: seq<Phid>)
    requires ctx.Valid() && Known(ctx, order)
    ensures Pruned(ctx, order[..0]).blockers == []
  {
    assert order[..0] == [];
    NothingVisited(ctx);
  }

  lemma VisitReports(ctx: Context, order: seq<Phid>, i: nat, k: nat, reason: Reason)
    requires ctx.Valid() && Known(ctx, order) && i < |order| && Complains(ctx, order, i, k, reason)
    ensures reason in Pruned(ctx, order[..i + 1]).blockers
  {
    hide Pruned, ApplyAll, RunCheck, Complains, ComplainsAt;
    VisitOne(ctx, order, i);
    ComplainsWhere(ctx, order, i, k, reason);
    CheckBlocks(ctx, REVISION_BLOCKER_CHECKS, order[i], Pruned(ctx, order[..i]), k, reason);
  }

  lemma VisitKeeps(ctx: Context, order: seq<Phid>, i: nat, reason: Reason)
    requires ctx.Valid() && Known(ctx, order) && i < |order| && reason in Pruned(ctx, order[..i]).blockers
    ensures reason in Pruned(ctx, order[..i + 1]).blockers
  {
    hide Pruned, ApplyAll, RunCheck;
    VisitOne(ctx, order, i);
    BlockersKept(ctx, REVISION_BLOCKER_CHECKS, order[i], Pruned(ctx, order[..i]), reason);
  }

  lemma VisitOrigin(ctx: Context, order: seq<Phid>, i: nat, reason: Reason) returns (k: nat)
    requires ctx.Valid() && Known(ctx, order) && i < |order|
    requires reason in Pruned(ctx, order[..i + 1]).blockers && reason !in Pruned(ctx, order[..i]).blockers
    ensures Complains(ctx, order, i, k, reason)
  {
    hide Pruned, ApplyAll, RunCheck, Complains, ComplainsAt;
    VisitOne(ctx, order, i);
    k := BlockerOfCheck(ctx, REVISION_BLOCKER_CHECKS, order[i], Pruned(ctx, order[..i]), reason);
    ComplainsWhere(ctx, order, i, k, reason);
  }

  /** A reported blocker is the complaint of some check about some revision that counts. */
  lemma {:induction false} BlockerOrigin(ctx: Context, order: seq<Phid>, n: nat, reason: Reason) returns (i: nat, k: nat)
    requires ctx.Valid() && Known(ctx, order) && n <= |order| && reason in Pruned(ctx, order[..n]).blockers
    ensures Complains(ctx, order, i, k, reason)
    decreases n
  {
    assert n > 0 ==> Known(ctx, order[..n - 1]);
    hide *;
    if n == 0 {
      NothingReported(ctx, order);
    } else if reason in Pruned(ctx, order[..n - 1]).blockers {
      i, k := BlockerOrigin(ctx, order, n - 1, reason);
    } else {
      i := n - 1;
      k := VisitOrigin(ctx, order, n - 1, reason);
    }
  }

  /** Every complaint about a revision that counts is reported as a blocker, also the ones that come
      after the revision has been removed. */
  lemma {:induction false} ComplaintReported(ctx: Context, order: seq<Phid>, n: nat, i: nat, k: nat, reason: Reason)
    requires ctx.Valid() && Known(ctx, order) && i < n <= |order| && Complains(ctx, order, i, k, reason)
    ensures reason in Pruned(ctx, order[..n]).blockers
    decreases n
  {
    hide *;
    if i < n - 1 {
      ComplaintReported(ctx, order, n - 1, i, k, reason);
      VisitKeeps(ctx, order, n - 1, reason);
    } else {
      VisitReports(ctx, order, i, k, reason);
    }
  }

  // ---------------------------------------------------------------------------
  // Reasons
  // ---------------------------------------------------------------------------

  /** The check that gives a reason, if a single one does. */
  function SourceOf(reason: Reason): Option<Check> {
    match reason
    case LandingRepoMissing | AccessExpired(_) | InsufficientPermissions(_) => Some(UserScmLevel)
    case RepoUnset | RepoNotSupported => Some(UnsupportedRepo)
    case MultipleOpenParents | OpenParentBlocked(_) | OpenParentOtherRepo(_) => Some(OpenParents)
    case RevisionClosed => Some(ClosedRevisions)
    case DiffNotLatest => Some(LatestDiffs)
    case OpenAncestorBlocked => Some(OpenAncestor)
    case _ => None
  }

  /** Reasons that no check on a single revision gives. */
  predicate OfStack(reason: Reason) {
    reason in {PathNotValid, LandingInProgress, NoVerifiedEmail, PathMixesRepos, PathWithoutRepo, PathNotLandable}
  }

  lemma SourceIs(ctx: Context, c: Check, alive: set<Phid>, v: Phid, reason: Reason)
    requires ctx.Valid() && v in ctx.revisions && RunCheck(ctx, c, alive, v) == Some(reason)
    ensures !OfStack(reason) && (SourceOf(reason).Some? ==> SourceOf(reason) == Some(c))
    ensures reason.Local? ==> c in LOCAL_CHECKS
  {
    hide RequestedDiff;
  }

  /** The place of a check in the list. */
  function IndexOf(c: Check): (k: nat)
    ensures k < |REVISION_BLOCKER_CHECKS| && REVISION_BLOCKER_CHECKS[k] == c
  {
    match c
    case UserScmLevel => 0
    case UnsupportedRepo => 1
    case OpenParents => 2
    case ClosedRevisions => 3
    case LatestDiffs => 4
    case AuthorPlannedChanges => 5
    case DiffAuthorIsKnown => 6
    case UpliftApproval => 7
    case RevisionDataClassification => 8
    case PreventSymlinks => 9
    case TryTaskConfig => 10
    case OpenAncestor => 11
  }

  lemma ListedOnce(k: nat)
    requires k < |REVISION_BLOCKER_CHECKS|
    ensures IndexOf(REVISION_BLOCKER_CHECKS[k]) == k
  {
  }

  lemma CountsIff(ctx: Context, v: Phid)
    requires ctx.Valid()
    ensures Counts(ctx, v) <==> v in ctx.BlockingPhids()
  {
  }

  lemma InOrder(ctx: Context, v: Phid) returns (i: nat)
    requires ctx.Valid() && v in ctx.revisions
    ensures i < |ctx.order| && ctx.order[i] == v
  {
    assert v in ctx.order;
    i :| 0 <= i < |ctx.order| && ctx.order[i] == v;
  }

  /** At the turn of `order[i]`, which counts, this check complains for this reason. */
  ghost predicate SaysAt(ctx: Context, c: Check, i: int, reason: Reason)
    requires ctx.Valid() && Known(ctx, ctx.order)
  {
    && 0 <= i < |ctx.order| && Counts(ctx, ctx.order[i])
    && RunCheck(ctx, c, AliveAt(ctx, ctx.order, i, IndexOf(c)), ctx.order[i]) == Some(reason)
  }

  lemma InSum<T>(a: seq<T>, b: seq<T>, c: seq<T>, d: seq<T>, e: seq<T>, f: seq<T>, x: T)
    ensures x in a + b + c + d + e + f <==> x in a || x in b || x in c || x in d || x in e || x in f
  {
  }

  lemma AssessmentParts(ctx: Context, reason: Reason)
    requires ctx.Valid() && Known(ctx, ctx.order)
    ensures reason in AssessmentBlockers(ctx) <==>
      || CheckLandingPathValid(ctx, ctx.stack) == Some(reason)
      || CheckAlreadyRequested(ctx) == Some(reason)
      || CheckNoEmail(ctx) == Some(reason)
      || CheckSingleLandingRepo(ctx) == Some(reason)
      || reason in Pruned(ctx, ctx.order).blockers
      || CheckLandingPathLandable(ctx, Pruned(ctx, ctx.order).landable) == Some(reason)
  {
    hide Pruned, CheckLandingPathValid, CheckAlreadyRequested, CheckNoEmail, CheckSingleLandingRepo, CheckLandingPathLandable;
    InSum(ToSeq(CheckLandingPathValid(ctx, ctx.stack)), ToSeq(CheckAlreadyRequested(ctx)), ToSeq(CheckNoEmail(ctx)),
      ToSeq(CheckSingleLandingRepo(ctx)), Pruned(ctx, ctx.order).blockers,
      ToSeq(CheckLandingPathLandable(ctx, Pruned(ctx, ctx.order).landable)), reason);
  }

  lemma InAssessment(ctx: Context, reason: Reason)
    requires ctx.Valid() && Known(ctx, ctx.order) && !OfStack(reason)
    ensures reason in AssessmentBlockers(ctx) <==> reason in Pruned(ctx, ctx.order).blockers
  {
    AssessmentParts(ctx, reason);
    ValidAndLandableReasons(ctx);
    hide *;
  }

  /** The reasons that the checks on the whole request give. */
  lemma ValidAndLandableReasons(ctx: Context)
    requires ctx.Valid() && Known(ctx, ctx.order)
    ensures CheckLandingPathValid(ctx, ctx.stack) in {None, Some(PathNotValid)}
    ensures CheckAlreadyRequested(ctx) in {None, Some(LandingInProgress)} && CheckNoEmail(ctx) in {None, Some(NoVerifiedEmail)}
    ensures CheckLandingPathLandable(ctx, Pruned(ctx, ctx.order).landable) in {None, Some(PathNotLandable)}
    ensures CheckSingleLandingRepo(ctx) in {None, Some(PathWithoutRepo), Some(PathMixesRepos)}
  {
    hide Pruned, IsSimplePath, IsPrefixOfLandablePath, RepoOfPath;
  }

  lemma WholeOrder(ctx: Context)
    ensures ctx.order[..|ctx.order|] == ctx.order
  {
  }

  /** A reason is reported exactly when a check gives it at the turn of a revision that counts. */
  lemma ReportedBy(ctx: Context, reason: Reason) returns (c: Check, i: nat)
    requires ctx.Valid() && Known(ctx, ctx.order) && !OfStack(reason) && reason in AssessmentBlockers(ctx)
    ensures SaysAt(ctx, c, i, reason)
    ensures SourceOf(reason).Some? ==> c == SourceOf(reason).value
    ensures reason.Local? ==> c in LOCAL_CHECKS
  {
    InAssessment(ctx, reason);
    WholeOrder(ctx);
    hide AssessmentBlockers, Pruned, RunCheck, AliveAt, SourceOf, OfStack, IndexOf;
    var k;
    i, k := BlockerOrigin(ctx, ctx.order, |ctx.order|, reason);
    c := REVISION_BLOCKER_CHECKS[k];
    ListedOnce(k);
    CountsIff(ctx, ctx.order[i]);
    SourceIs(ctx, c, AliveAt(ctx, ctx.order, i, k), ctx.order[i], reason);
  }

  lemma Reported(ctx: Context, c: Check, i: nat, reason: Reason)
    requires ctx.Valid() && Known(ctx, ctx.order) && SaysAt(ctx, c, i, reason)
    ensures reason in AssessmentBlockers(ctx)
  {
    WholeOrder(ctx);
    hide AssessmentBlockers, Pruned, RunCheck, AliveAt, OfStack, IndexOf;
    var k := IndexOf(c);
    CountsIff(ctx, ctx.order[i]);
    SourceIs(ctx, c, AliveAt(ctx, ctx.order, i, k), ctx.order[i], reason);
    ComplaintReported(ctx, ctx.order, |ctx.order|, i, k, reason);
    InAssessment(ctx, reason);
  }

  // ---------------------------------------------------------------------------
  // Reasons that do not depend on what is left
  // ---------------------------------------------------------------------------

  /** This check, which does not look at what is left, complains about a revision for this reason. */
  ghost predicate Says(ctx: Context, c: Check, v: Phid, reason: Reason)
    requires ctx.Valid()
  {
    v in ctx.revisions && RunCheck(ctx, c, {}, v) == Some(reason)
  }

  lemma SaysAnytime(ctx: Context, c: Check, i: nat, reason: Reason)
    requires ctx.Valid() && Known(ctx, ctx.order) && c != OpenParents && c != OpenAncestor && i < |ctx.order|
    ensures SaysAt(ctx, c, i, reason) <==> Counts(ctx, ctx.order[i]) && Says(ctx, c, ctx.order[i], reason)
  {
    hide RunCheck, AliveAt, Counts, IndexOf;
    Stateless(ctx, c, AliveAt(ctx, ctx.order, i, IndexOf(c)), ctx.order[i]);
  }

  lemma Stateless(ctx: Context, c: Check, alive: set<Phid>, v: Phid)
    requires ctx.Valid() && v in ctx.revisions && c != OpenParents && c != OpenAncestor
    ensures RunCheck(ctx, c, alive, v) == RunCheck(ctx, c, {}, v)
  {
  }

  lemma ReportedIff(ctx: Context, c: Check, reason: Reason)
    requires ctx.Valid() && Known(ctx, ctx.order) && c != OpenParents && c != OpenAncestor && SourceOf(reason) == Some(c)
    ensures reason in AssessmentBlockers(ctx) <==> exists v | Counts(ctx, v) :: Says(ctx, c, v, reason)
  {
    assert !OfStack(reason);
    assert forall v | Counts(ctx, v) :: v in ctx.revisions;
    hide *;
    if reason in AssessmentBlockers(ctx) {
      var c', i := ReportedBy(ctx, reason);
      OrderedIsKnown(ctx, c', i, reason);
      SaysAnytime(ctx, c, i, reason);
    }
    forall v | Counts(ctx, v) && Says(ctx, c, v, reason)
      ensures reason in AssessmentBlockers(ctx)
    {
      var i := InOrder(ctx, v);
      SaysAnytime(ctx, c, i, reason);
      Reported(ctx, c, i, reason);
    }
  }

  lemma OrderedIsKnown(ctx: Context, c: Check, i: nat, reason: Reason)
    requires ctx.Valid() && Known(ctx, ctx.order) && SaysAt(ctx, c, i, reason)
    ensures i < |ctx.order|
  {
  }

  lemma PermissionSays(ctx: Context, v: Phid, access: string)
    requires ctx.Valid() && v in ctx.revisions
    ensures Says(ctx, UserScmLevel, v, LandingRepoMissing) <==> ctx.request.Some? && !HasLandableRepo(ctx, v)
    ensures Says(ctx, UserScmLevel, v, InsufficientPermissions(access)) <==>
      && ctx.request.Some? && HasLandableRepo(ctx, v) && RepoOf(ctx, v).displayName == access
      && RepoOf(ctx, v).activeGroup !in ctx.request.value.groups && RepoOf(ctx, v).membershipGroup !in ctx.request.value.groups
    ensures Says(ctx, UserScmLevel, v, AccessExpired(access)) <==>
      && ctx.request.Some? && HasLandableRepo(ctx, v) && RepoOf(ctx, v).displayName == access
      && RepoOf(ctx, v).activeGroup !in ctx.request.value.groups && RepoOf(ctx, v).membershipGroup in ctx.request.value.groups
  {
  }

  /** Permissions: with a request, a requested revision without a landable repository, a user who is in
      neither group of its repository, and one who is only in its membership group are each reported,
      and nothing is said about permissions otherwise. */
  lemma PermissionBlockers(ctx: Context, access: string)
    requires ctx.Valid()
    ensures Known(ctx, ctx.order)
    ensures LandingRepoMissing in AssessmentBlockers(ctx) <==>
      ctx.request.Some? && exists v | Counts(ctx, v) :: !HasLandableRepo(ctx, v)
    ensures InsufficientPermissions(access) in AssessmentBlockers(ctx) <==>
      ctx.request.Some? && exists v | Counts(ctx, v) ::
        && HasLandableRepo(ctx, v) && RepoOf(ctx, v).displayName == access
        && RepoOf(ctx, v).activeGroup !in ctx.request.value.groups && RepoOf(ctx, v).membershipGroup !in ctx.request.value.groups
    ensures AccessExpired(access) in AssessmentBlockers(ctx) <==>
      ctx.request.Some? && exists v | Counts(ctx, v) ::
        && HasLandableRepo(ctx, v) && RepoOf(ctx, v).displayName == access
        && RepoOf(ctx, v).activeGroup !in ctx.request.value.groups && RepoOf(ctx, v).membershipGroup in ctx.request.value.groups
  {
    assert forall v | Counts(ctx, v) :: v in ctx.revisions;
    ReportedIff(ctx, UserScmLevel, LandingRepoMissing);
    ReportedIff(ctx, UserScmLevel, InsufficientPermissions(access));
    ReportedIff(ctx, UserScmLevel, AccessExpired(access));
    hide AssessmentBlockers, Says, Counts, HasLandableRepo, RepoOf;
    forall v | Counts(ctx, v)
      ensures Says(ctx, UserScmLevel, v, LandingRepoMissing) <==> ctx.request.Some? && !HasLandableRepo(ctx, v)
      ensures Says(ctx, UserScmLevel, v, InsufficientPermissions(access)) <==>
        && ctx.request.Some? && HasLandableRepo(ctx, v) && RepoOf(ctx, v).displayName == access
        && RepoOf(ctx, v).activeGroup !in ctx.request.value.groups && RepoOf(ctx, v).membershipGroup !in ctx.request.value.groups
      ensures Says(ctx, UserScmLevel, v, AccessExpired(access)) <==>
        && ctx.request.Some? && HasLandableRepo(ctx, v) && RepoOf(ctx, v).displayName == access
        && RepoOf(ctx, v).activeGroup !in ctx.request.value.groups && RepoOf(ctx, v).membershipGroup in ctx.request.value.groups
    {
      PermissionSays(ctx, v, access);
    }
  }

  lemma {:induction false} FirstReasonFirst(ctx: Context, checks: seq<Check>, alive: set<Phid>, v: Phid)
    requires ctx.Valid() && v in ctx.revisions && checks != [] && RunCheck(ctx, checks[0], alive, v).Some?
    ensures FirstReason(ctx, checks, alive, v) == RunCheck(ctx, checks[0], alive, v)
    decreases |checks|
  {
    hide RunCheck;
    if |checks| > 1 {
      FirstReasonFirst(ctx, checks[..|checks| - 1], alive, v);
    } else {
      assert FirstReason(ctx, checks[..0], alive, v) == None;
    }
  }

  /** Missing permissions are checked first, so they are the one reason that is recorded: for a user
      who is only in the membership group that access has expired, for one in neither group that the
      permissions are insufficient. */
  lemma PermissionRecorded(ctx: Context, order: seq<Phid>, i: nat)
    requires ctx.Valid() && Enumerates(order, ctx.stack) && Known(ctx, order) && i < |order| && ctx.request.Some?
    requires HasLandableRepo(ctx, order[i]) && RepoOf(ctx, order[i]).activeGroup !in ctx.request.value.groups
    ensures Pruned(ctx, order).blocked[order[i]] ==
      [if RepoOf(ctx, order[i]).membershipGroup in ctx.request.value.groups
       then AccessExpired(RepoOf(ctx, order[i]).displayName) else InsufficientPermissions(RepoOf(ctx, order[i]).displayName)]
  {
    hide Pruned, FirstReason, AliveBefore;
    Judged(ctx, order, i);
    FirstReasonFirst(ctx, OWN_CHECKS, AliveBefore(ctx, order, i), order[i]);
  }

  lemma RepoSays(ctx: Context, v: Phid)
    requires ctx.Valid() && v in ctx.revisions
    ensures Says(ctx, UnsupportedRepo, v, RepoUnset) <==> ctx.revisions[v].repo.None?
    ensures Says(ctx, UnsupportedRepo, v, RepoNotSupported) <==> ctx.revisions[v].repo.Some? && !HasLandableRepo(ctx, v)
  {
  }

  /** A revision that counts and has no repository, or one that is not landed to, is reported. */
  lemma RepoBlockers(ctx: Context)
    requires ctx.Valid()
    ensures Known(ctx, ctx.order)
    ensures RepoUnset in AssessmentBlockers(ctx) <==> exists v | Counts(ctx, v) :: ctx.revisions[v].repo.None?
    ensures RepoNotSupported in AssessmentBlockers(ctx) <==>
      exists v | Counts(ctx, v) :: ctx.revisions[v].repo.Some? && !HasLandableRepo(ctx, v)
  {
    assert forall v | Counts(ctx, v) :: v in ctx.revisions;
    ReportedIff(ctx, UnsupportedRepo, RepoUnset);
    ReportedIff(ctx, UnsupportedRepo, RepoNotSupported);
    hide AssessmentBlockers, Says, Counts, HasLandableRepo;
    forall v | Counts(ctx, v)
      ensures Says(ctx, UnsupportedRepo, v, RepoUnset) <==> ctx.revisions[v].repo.None?
      ensures Says(ctx, UnsupportedRepo, v, RepoNotSupported) <==> ctx.revisions[v].repo.Some? && !HasLandableRepo(ctx, v)
    {
      RepoSays(ctx, v);
    }
  }

  lemma StateSays(ctx: Context, v: Phid)
    requires ctx.Valid() && v in ctx.revisions
    ensures Says(ctx, ClosedRevisions, v, RevisionClosed) <==> ctx.revisions[v].closed
    ensures Says(ctx, LatestDiffs, v, DiffNotLatest) <==>
      ctx.request.Some? && !AsksForLatest(ctx.request.value.path, v, ctx.revisions[v].latestDiff)
  {
    if ctx.request.Some? {
      LatestIff(ctx.request.value.path, v, ctx.revisions[v].latestDiff);
    }
    hide AsksForLatest, RequestedDiff;
  }

  /** A revision that counts and is closed is reported, and with a request one that is not requested
      with its latest diff. */
  lemma RevisionBlockers(ctx: Context)
    requires ctx.Valid()
    ensures Known(ctx, ctx.order)
    ensures RevisionClosed in AssessmentBlockers(ctx) <==> exists v | Counts(ctx, v) :: ctx.revisions[v].closed
    ensures DiffNotLatest in AssessmentBlockers(ctx) <==>
      ctx.request.Some? && exists v | Counts(ctx, v) :: !AsksForLatest(ctx.request.value.path, v, ctx.revisions[v].latestDiff)
  {
    assert forall v | Counts(ctx, v) :: v in ctx.revisions;
    ReportedIff(ctx, ClosedRevisions, RevisionClosed);
    ReportedIff(ctx, LatestDiffs, DiffNotLatest);
    hide AssessmentBlockers, Says, Counts, AsksForLatest;
    forall v | Counts(ctx, v)
      ensures Says(ctx, ClosedRevisions, v, RevisionClosed) <==> ctx.revisions[v].closed
      ensures Says(ctx, LatestDiffs, v, DiffNotLatest) <==>
        ctx.request.Some? && !AsksForLatest(ctx.request.value.path, v, ctx.revisions[v].latestDiff)
    {
      StateSays(ctx, v);
    }
  }

  lemma LocalSays(ctx: Context, c: Check, v: Phid, message: string)
    requires ctx.Valid() && v in ctx.revisions && c in LOCAL_CHECKS
    ensures Says(ctx, c, v, Local(message)) <==> c in ctx.revisions[v].local && ctx.revisions[v].local[c] == message
  {
  }

  lemma LocalChecksStateless(c: Check)
    ensures c in LOCAL_CHECKS ==> c != OpenParents && c != OpenAncestor
  {
  }

  /** The complaints of local checks are reported as they are. */
  lemma LocalBlockers(ctx: Context, message: string)
    requires ctx.Valid()
    ensures Known(ctx, ctx.order)
    ensures Local(message) in AssessmentBlockers(ctx) <==>
      exists v, c | Counts(ctx, v) && c in LOCAL_CHECKS :: c in ctx.revisions[v].local && ctx.revisions[v].local[c] == message
  {
    assert forall v | Counts(ctx, v) :: v in ctx.revisions;
    assert !OfStack(Local(message));
    hide AssessmentBlockers, Says, SaysAt, Counts;
    if Local(message) in AssessmentBlockers(ctx) {
      var c, i := ReportedBy(ctx, Local(message));
      OrderedIsKnown(ctx, c, i, Local(message));
      LocalChecksStateless(c);
      SaysAnytime(ctx, c, i, Local(message));
      LocalSays(ctx, c, ctx.order[i], message);
    }
    forall v, c | Counts(ctx, v) && c in LOCAL_CHECKS && c in ctx.revisions[v].local && ctx.revisions[v].local[c] == message
      ensures Local(message) in AssessmentBlockers(ctx)
    {
      LocalChecksStateless(c);
      LocalSays(ctx, c, v, message);
      var i := InOrder(ctx, v);
      SaysAnytime(ctx, c, i, Local(message));
      Reported(ctx, c, i, Local(message));
    }
  }

  // ---------------------------------------------------------------------------
  // Reasons that depend on what is left
  // ---------------------------------------------------------------------------

  /** The open parents of a revision are just this one. */
  ghost predicate WaitsFor(ctx: Context, v: Phid, p: Phid)
    requires ctx.Valid()
  {
    && (p, v) in ctx.stack.edges && !ctx.revisions[p].closed
    && forall q | (q, v) in ctx.stack.edges && !ctx.revisions[q].closed :: q == p
  }

  /** A revision has two open parents. */
  ghost predicate WaitsForMany(ctx: Context, v: Phid)
    requires ctx.Valid()
  {
    exists p, q | (p, v) in ctx.stack.edges && (q, v) in ctx.stack.edges :: p != q && !ctx.revisions[p].closed && !ctx.revisions[q].closed
  }

  lemma OpenParentsAre(ctx: Context, v: Phid)
    requires ctx.Valid() && v in ctx.revisions
    ensures |ctx.OpenParentsOf(v)| > 1 <==> WaitsForMany(ctx, v)
  {
    var open := ctx.OpenParentsOf(v);
    forall p
      ensures p in open <==> (p, v) in ctx.stack.edges && p in ctx.revisions && !ctx.revisions[p].closed
    {
      OpenParent(ctx, p, v);
    }
    if |open| > 1 {
      var p, q := TwoOf(open);
    } else if WaitsForMany(ctx, v) {
      var p, q :| (p, v) in ctx.stack.edges && (q, v) in ctx.stack.edges && p != q && !ctx.revisions[p].closed && !ctx.revisions[q].closed;
      SubsetSize({p, q}, open);
    }
  }

  lemma TwoOf<T>(s: set<T>) returns (p: T, q: T)
    requires |s| > 1
    ensures p in s && q in s && p != q
  {
    p :| p in s;
    assert |s - {p}| > 0;
    q :| q in s - {p};
  }

  lemma OnlyOpenParentIs(ctx: Context, v: Phid, p: Phid)
    requires ctx.Valid() && v in ctx.revisions
    ensures WaitsFor(ctx, v, p) <==> ctx.OpenParentsOf(v) == {p}
  {
    var open := ctx.OpenParentsOf(v);
    forall q
      ensures q in open <==> (q, v) in ctx.stack.edges && q in ctx.revisions && !ctx.revisions[q].closed
    {
      OpenParent(ctx, q, v);
    }
    assert open == {p} ==> p in open;
  }

  /** What the check on open parents says. */
  lemma ParentReason(ctx: Context, alive: set<Phid>, v: Phid, id: int)
    requires ctx.Valid() && v in ctx.revisions
    ensures var r := RunCheck(ctx, OpenParents, alive, v);
      && (r == Some(MultipleOpenParents) <==> WaitsForMany(ctx, v))
      && (r == Some(OpenParentBlocked(id)) <==> exists p | WaitsFor(ctx, v, p) :: p !in alive && ctx.revisions[p].id == id)
      && (r == Some(OpenParentOtherRepo(id)) <==>
        exists p | WaitsFor(ctx, v, p) :: p in alive && ctx.revisions[p].id == id && ctx.revisions[p].repo != ctx.revisions[v].repo)
  {
    OpenParentsAre(ctx, v);
    forall p
      ensures WaitsFor(ctx, v, p) <==> ctx.OpenParentsOf(v) == {p}
    {
      OnlyOpenParentIs(ctx, v, p);
    }
    hide WaitsFor, WaitsForMany;
    var open := ctx.OpenParentsOf(v);
    if |open| == 1 {
      SingletonSet(open);
      assert WaitsFor(ctx, v, TheOnly(open));
    }
  }

  /** At the turn of a check, everything but the revision itself is as it was at the turn of the
      revision. */
  lemma OthersAlive(ctx: Context, order: seq<Phid>, i: nat, k: nat, p: Phid)
    requires ctx.Valid() && Known(ctx, order) && i < |order| && k <= |REVISION_BLOCKER_CHECKS| && p != order[i]
    ensures p in AliveAt(ctx, order, i, k) <==> p in AliveBefore(ctx, order, i)
  {
    hide ApplyAll, Pruned;
  }

  lemma NoSelfEdge(g: Graph, v: Phid)
    requires g.Closed() && Acyclic(g)
    ensures (v, v) !in g.edges
  {
    if (v, v) in g.edges {
      assert IsWalk(g, [v, v]);
    }
  }

  /** `order[i]` has a single open parent, which has this number and is gone when it is its turn. */
  ghost predicate ParentGone(ctx: Context, i: nat, id: int)
    requires ctx.Valid() && Known(ctx, ctx.order) && i < |ctx.order|
  {
    exists p | WaitsFor(ctx, ctx.order[i], p) :: p !in AliveBefore(ctx, ctx.order, i) && ctx.revisions[p].id == id
  }

  /** `order[i]` has a single open parent, which has this number, is still there, and is in another
      repository. */
  ghost predicate ParentElsewhere(ctx: Context, i: nat, id: int)
    requires ctx.Valid() && Known(ctx, ctx.order) && i < |ctx.order|
  {
    exists p | WaitsFor(ctx, ctx.order[i], p) ::
      p in AliveBefore(ctx, ctx.order, i) && ctx.revisions[p].id == id && ctx.revisions[p].repo != ctx.revisions[ctx.order[i]].repo
  }

  lemma ParentAlive(ctx: Context, i: nat, p: Phid)
    requires ctx.Valid() && Acyclic(ctx.stack) && Known(ctx, ctx.order) && i < |ctx.order| && WaitsFor(ctx, ctx.order[i], p)
    ensures p in AliveAt(ctx, ctx.order, i, IndexOf(OpenParents)) <==> p in AliveBefore(ctx, ctx.order, i)
  {
    NoSelfEdge(ctx.stack, ctx.order[i]);
    OthersAlive(ctx, ctx.order, i, IndexOf(OpenParents), p);
  }

  /** What the check on open parents says at the turn of `order[i]`. */
  lemma ParentSaysAt(ctx: Context, i: nat, id: int)
    requires ctx.Valid() && Acyclic(ctx.stack) && Known(ctx, ctx.order) && i < |ctx.order| && Counts(ctx, ctx.order[i])
    ensures SaysAt(ctx, OpenParents, i, MultipleOpenParents) <==> WaitsForMany(ctx, ctx.order[i])
    ensures SaysAt(ctx, OpenParents, i, OpenParentBlocked(id)) <==> ParentGone(ctx, i, id)
    ensures SaysAt(ctx, OpenParents, i, OpenParentOtherRepo(id)) <==> ParentElsewhere(ctx, i, id)
  {
    hide Acyclic, RunCheck, AliveAt, AliveBefore, WaitsFor, WaitsForMany, Counts, IndexOf;
    ParentReason(ctx, AliveAt(ctx, ctx.order, i, IndexOf(OpenParents)), ctx.order[i], id);
    forall p | WaitsFor(ctx, ctx.order[i], p)
      ensures p in AliveAt(ctx, ctx.order, i, IndexOf(OpenParents)) <==> p in AliveBefore(ctx, ctx.order, i)
    {
      ParentAlive(ctx, i, p);
    }
  }

  lemma ParentReportedIff(ctx: Context, reason: Reason)
    requires ctx.Valid() && Known(ctx, ctx.order) && SourceOf(reason) == Some(OpenParents)
    ensures reason in AssessmentBlockers(ctx) <==> exists i :: SaysAt(ctx, OpenParents, i, reason)
    ensures forall i | SaysAt(ctx, OpenParents, i, reason) :: 0 <= i < |ctx.order| && Counts(ctx, ctx.order[i])
  {
    assert !OfStack(reason);
    assert forall i | SaysAt(ctx, OpenParents, i, reason) :: 0 <= i < |ctx.order| && Counts(ctx, ctx.order[i]);
    hide *;
    if reason in AssessmentBlockers(ctx) {
      var c, i := ReportedBy(ctx, reason);
    }
    forall i | SaysAt(ctx, OpenParents, i, reason)
      ensures reason in AssessmentBlockers(ctx)
    {
      Reported(ctx, OpenParents, i, reason);
    }
  }

  /** Parents: more than one open parent, a single one that was already gone at the turn of the
      revision, and a single one in another repository are each reported; closed parents never are. */
  lemma ParentBlockers(ctx: Context, id: int)
    requires ctx.Valid() && Acyclic(ctx.stack)
    ensures Known(ctx, ctx.order)
    ensures MultipleOpenParents in AssessmentBlockers(ctx) <==>
      exists i | 0 <= i < |ctx.order| && Counts(ctx, ctx.order[i]) :: WaitsForMany(ctx, ctx.order[i])
    ensures OpenParentBlocked(id) in AssessmentBlockers(ctx) <==>
      exists i | 0 <= i < |ctx.order| && Counts(ctx, ctx.order[i]) :: ParentGone(ctx, i, id)
    ensures OpenParentOtherRepo(id) in AssessmentBlockers(ctx) <==>
      exists i | 0 <= i < |ctx.order| && Counts(ctx, ctx.order[i]) :: ParentElsewhere(ctx, i, id)
  {
    assert Known(ctx, ctx.order);
    hide *;
    ManyReported(ctx);
    GoneReported(ctx, id);
    ElsewhereReported(ctx, id);
  }

  lemma ManyReported(ctx: Context)
    requires ctx.Valid() && Acyclic(ctx.stack) && Known(ctx, ctx.order)
    ensures MultipleOpenParents in AssessmentBlockers(ctx) <==>
      exists i | 0 <= i < |ctx.order| && Counts(ctx, ctx.order[i]) :: WaitsForMany(ctx, ctx.order[i])
  {
    KnownRevisions(ctx);
    hide *;
    ParentReportedIff(ctx, MultipleOpenParents);
    forall i | 0 <= i < |ctx.order| && Counts(ctx, ctx.order[i])
      ensures SaysAt(ctx, OpenParents, i, MultipleOpenParents) <==> WaitsForMany(ctx, ctx.order[i])
    {
      ParentSaysAt(ctx, i, 0);
    }
  }

  lemma GoneReported(ctx: Context, id: int)
    requires ctx.Valid() && Acyclic(ctx.stack) && Known(ctx, ctx.order)
    ensures OpenParentBlocked(id) in AssessmentBlockers(ctx) <==>
      exists i | 0 <= i < |ctx.order| && Counts(ctx, ctx.order[i]) :: ParentGone(ctx, i, id)
  {
    KnownRevisions(ctx);
    hide *;
    ParentReportedIff(ctx, OpenParentBlocked(id));
    forall i | 0 <= i < |ctx.order| && Counts(ctx, ctx.order[i])
      ensures SaysAt(ctx, OpenParents, i, OpenParentBlocked(id)) <==> ParentGone(ctx, i, id)
    {
      ParentSaysAt(ctx, i, id);
    }
  }

  lemma ElsewhereReported(ctx: Context, id: int)
    requires ctx.Valid() && Acyclic(ctx.stack) && Known(ctx, ctx.order)
    ensures OpenParentOtherRepo(id) in AssessmentBlockers(ctx) <==>
      exists i | 0 <= i < |ctx.order| && Counts(ctx, ctx.order[i]) :: ParentElsewhere(ctx, i, id)
  {
    KnownRevisions(ctx);
    hide *;
    ParentReportedIff(ctx, OpenParentOtherRepo(id));
    forall i | 0 <= i < |ctx.order| && Counts(ctx, ctx.order[i])
      ensures SaysAt(ctx, OpenParents, i, OpenParentOtherRepo(id)) <==> ParentElsewhere(ctx, i, id)
    {
      ParentSaysAt(ctx, i, id);
    }
  }

  lemma KnownRevisions(ctx: Context)
    requires Known(ctx, ctx.order)
    ensures forall i | 0 <= i < |ctx.order| :: ctx.order[i] in ctx.revisions
  {
  }

  /** A revision that counts and is not left in the end is reported as having a blocked ancestor. */
  lemma AncestorBlockers(ctx: Context)
    requires ctx.Valid()
    ensures Known(ctx, ctx.order)
    ensures OpenAncestorBlocked in AssessmentBlockers(ctx) <==> exists v | Counts(ctx, v) :: v !in Left(ctx, ctx.order)
  {
    assert !OfStack(OpenAncestorBlocked) && SourceOf(OpenAncestorBlocked) == Some(OpenAncestor);
    assert forall v | Counts(ctx, v) :: v in ctx.revisions;
    assert forall i | SaysAt(ctx, OpenAncestor, i, OpenAncestorBlocked) :: 0 <= i < |ctx.order|;
    assert forall k | 0 <= k < |ctx.order| :: ctx.order[k] in ctx.revisions;
    hide *;
    if OpenAncestorBlocked in AssessmentBlockers(ctx) {
      var c, i := ReportedBy(ctx, OpenAncestorBlocked);
      AncestorSaysAt(ctx, i);
    }
    forall v | Counts(ctx, v) && v !in Left(ctx, ctx.order)
      ensures OpenAncestorBlocked in AssessmentBlockers(ctx)
    {
      var i := InOrder(ctx, v);
      AncestorSaysAt(ctx, i);
      Reported(ctx, OpenAncestor, i, OpenAncestorBlocked);
    }
  }

  /** The last check finds the revision gone exactly when it is not left in the end. */
  lemma AncestorSaysAt(ctx: Context, i: nat)
    requires ctx.Valid() && Known(ctx, ctx.order) && i < |ctx.order|
    ensures SaysAt(ctx, OpenAncestor, i, OpenAncestorBlocked) <==> Counts(ctx, ctx.order[i]) && ctx.order[i] !in Left(ctx, ctx.order)
  {
    hide ApplyAll, FirstReason, Pruned, Counts;
    var order, v := ctx.order, ctx.order[i];
    JudgedOnce(ctx, order, i, i);
    Judged(ctx, order, i);
    assert IndexOf(OpenAncestor) == 11;
    OwnChecksApplied(ctx, i);
  }

  lemma OwnChecksApplied(ctx: Context, i: nat)
    requires ctx.Valid() && Known(ctx, ctx.order) && i < |ctx.order| && ctx.order[i] in AliveBefore(ctx, ctx.order, i)
    ensures ctx.order[i] in AliveAt(ctx, ctx.order, i, 11) <==> Verdict(ctx, ctx.order, i).None?
  {
    hide ApplyAll, FirstReason, Pruned, RunCheck;
    ApplyAllEffect(ctx, OWN_CHECKS, ctx.order[i], Pruned(ctx, ctx.order[..i]));
  }

  // ---------------------------------------------------------------------------
  // Reasons about the request
  // ---------------------------------------------------------------------------

  lemma NotFromRevisions(ctx: Context, reason: Reason)
    requires ctx.Valid() && Known(ctx, ctx.order) && OfStack(reason)
    ensures reason !in Pruned(ctx, ctx.order).blockers
  {
    WholeOrder(ctx);
    hide Pruned, RunCheck, AliveAt, OfStack;
    if reason in Pruned(ctx, ctx.order).blockers {
      var i, k := BlockerOrigin(ctx, ctx.order, |ctx.order|, reason);
      SourceIs(ctx, REVISION_BLOCKER_CHECKS[k], AliveAt(ctx, ctx.order, i, k), ctx.order[i], reason);
    }
  }

  lemma StackBlockers(ctx: Context, reason: Reason)
    requires ctx.Valid() && Known(ctx, ctx.order) && OfStack(reason)
    ensures reason in AssessmentBlockers(ctx) <==>
      || CheckLandingPathValid(ctx, ctx.stack) == Some(reason)
      || CheckAlreadyRequested(ctx) == Some(reason)
      || CheckNoEmail(ctx) == Some(reason)
      || CheckSingleLandingRepo(ctx) == Some(reason)
      || CheckLandingPathLandable(ctx, Pruned(ctx, ctx.order).landable) == Some(reason)
  {
    NotFromRevisions(ctx, reason);
    AssessmentParts(ctx, reason);
    hide *;
  }

  /** A path mixes repositories: after a revision that has one there is a revision with another, or
      without any. */
  ghost predicate Mixes(repos: seq<Option<Phid>>) {
    exists i, j | 0 <= i < j < |repos| :: repos[i].Some? && repos[j] != repos[i]
  }

  lemma RepoOfPathIff(repos: seq<Option<Phid>>)
    ensures RepoOfPath(repos) == NoRepo <==> forall i | 0 <= i < |repos| :: repos[i].None?
    ensures RepoOfPath(repos) == LandingChecks.Mixed <==> Mixes(repos)
  {
    if !(forall i | 0 <= i < |repos| :: repos[i].None?) {
      var k := FirstRepo(repos);
      if Mixes(repos) {
        forall m | 0 <= m < |repos|
          ensures !SettledAt(repos, m)
        {
          var i, j :| 0 <= i < j < |repos| && repos[i].Some? && repos[j] != repos[i];
        }
      } else {
        assert SettledAt(repos, k);
      }
    }
  }

  lemma {:induction false} FirstRepo(repos: seq<Option<Phid>>) returns (k: nat)
    requires exists i | 0 <= i < |repos| :: repos[i].Some?
    ensures k < |repos| && repos[k].Some? && forall i | 0 <= i < k :: repos[i].None?
    decreases |repos|
  {
    if repos[0].Some? {
      k := 0;
    } else {
      var i :| 0 <= i < |repos| && repos[i].Some?;
      assert repos[1..][i - 1].Some?;
      k := FirstRepo(repos[1..]);
      k := k + 1;
      assert forall i | 0 < i < k :: repos[i] == repos[1..][i - 1];
    }
  }

  /** The blockers about who asks, what else is in progress, and whether the request is a path. */
  lemma RequestBlockers(ctx: Context)
    requires ctx.Valid()
    ensures Known(ctx, ctx.order)
    ensures LandingInProgress in AssessmentBlockers(ctx) <==> ctx.alreadyRequested
    ensures NoVerifiedEmail in AssessmentBlockers(ctx) <==> ctx.request.Some? && !ctx.request.value.hasEmail
    ensures PathNotValid in AssessmentBlockers(ctx) <==> ctx.request.Some? && !IsSimplePath(ctx.stack, ctx.RequestedPath())
  {
    StackBlockers(ctx, LandingInProgress);
    StackBlockers(ctx, NoVerifiedEmail);
    StackBlockers(ctx, PathNotValid);
    hide Pruned, IsSimplePath, IsPrefixOfLandablePath, RepoOfPath, AssessmentBlockers;
  }

  /** The blockers about the repositories of the requested path. */
  lemma PathRepoBlockers(ctx: Context)
    requires ctx.Valid()
    ensures Known(ctx, ctx.order)
    ensures PathWithoutRepo in AssessmentBlockers(ctx) <==>
      ctx.request.Some? && forall k | 0 <= k < |ctx.request.value.path| :: ctx.revisions[ctx.request.value.path[k].0].repo.None?
    ensures PathMixesRepos in AssessmentBlockers(ctx) <==>
      ctx.request.Some? && exists j, k | 0 <= j < k < |ctx.request.value.path| ::
        var first, later := ctx.revisions[ctx.request.value.path[j].0].repo, ctx.revisions[ctx.request.value.path[k].0].repo;
        first.Some? && later != first
  {
    StackBlockers(ctx, PathWithoutRepo);
    StackBlockers(ctx, PathMixesRepos);
    hide Pruned, CheckLandingPathLandable, CheckLandingPathValid, CheckNoEmail, CheckAlreadyRequested, RepoOfPath, AssessmentBlockers;
    ValidAndLandableReasons(ctx);
    if ctx.request.Some? {
      var repos := PathRepos(ctx);
      assert forall k | 0 <= k < |ctx.request.value.path| :: repos[k] == ctx.revisions[ctx.request.value.path[k].0].repo;
      RepoOfPathIff(repos);
    }
  }

  /** A request is not landable exactly when no landable path of what is left starts with it. */
  lemma LandablePathBlocker(ctx: Context)
    requires ctx.Valid()
    ensures Known(ctx, ctx.order)
    ensures PathNotLandable in AssessmentBlockers(ctx) <==>
      ctx.request.Some? && forall path | IsRootToLeaf(Pruned(ctx, ctx.order).landable, path) :: !(ctx.RequestedPath() <= path)
  {
    StackBlockers(ctx, PathNotLandable);
    ValidAndLandableReasons(ctx);
    hide Pruned, CheckLandingPathValid, CheckNoEmail, CheckAlreadyRequested, CheckSingleLandingRepo, AssessmentBlockers, IsRootToLeaf;
    if ctx.request.Some? {
      forall path
        ensures IsPrefixOfLandablePath(Pruned(ctx, ctx.order).landable, ctx.RequestedPath(), path) <==>
          IsRootToLeaf(Pruned(ctx, ctx.order).landable, path) && ctx.RequestedPath() <= path
      {
      }
    }
  }

  // ---------------------------------------------------------------------------
  // Warnings
  // ---------------------------------------------------------------------------

  /** Of the results of the warning checks, what is reported, in order. */
  lemma PresentOne<T>(w: T)
    ensures Present([Some(w)]) == [w] && Present<T>([None]) == [] && Present<T>([]) == []
  {
    var one, none: seq<Option<T>> := [Some(w)], [None];
    assert one[..0] == [] && none[..0] == [];
  }

  lemma PresentSnoc<T>(results: seq<Option<T>>, r: Option<T>)
    ensures Present(results + [r]) == Present(results) + ToSeq(r)
  {
    assert (results + [r])[..|results|] == results;
  }

  lemma Regroup<T>(a: seq<T>, b: seq<T>, c: seq<T>)
    ensures a + b + c == a + (b + c)
  {
  }

  lemma {:induction false} PresentConcat<T>(a: seq<Option<T>>, b: seq<Option<T>>)
    ensures Present(a + b) == Present(a) + Present(b)
    decreases |b|
  {
    if b == [] {
      assert a + b == a;
    } else {
      hide Present, ToSeq;
      var init, last := b[..|b| - 1], b[|b| - 1];
      assert b == init + [last];
      Regroup(a, init, [last]);
      PresentConcat(a, init);
      PresentSnoc(init, last);
      PresentSnoc(a + init, last);
      Regroup(Present(a), Present(init), ToSeq(last));
    }
  }

  /** The warnings of an assessment are those of its revisions in their order; those of a revision are
      what its checks report, in their order, if it counts. */
  lemma {:induction false} WarningLaws(ctx: Context, a: seq<Phid>, b: seq<Phid>, v: Phid)
    requires ctx.Valid() && Known(ctx, a) && Known(ctx, b) && v in ctx.revisions
    ensures Known(ctx, a + b) && CollectWarnings(ctx, a + b) == CollectWarnings(ctx, a) + CollectWarnings(ctx, b)
    ensures CollectWarnings(ctx, []) == []
    ensures CollectWarnings(ctx, [v]) == if Counts(ctx, v) then Present(ctx.revisions[v].warnings) else []
    decreases |b|
  {
    CountsIff(ctx, v);
    hide Present, Counts;
    assert [v][..0] == [];
    if b == [] {
      assert a + b == a;
    } else {
      var n := |b| - 1;
      WarningLaws(ctx, a, b[..n], v);
      assert (a + b)[..|a + b| - 1] == a + b[..n];
    }
  }

  lemma {:induction false} PresentIff<T>(results: seq<Option<T>>, w: T)
    ensures w in Present(results) <==> Some(w) in results
    decreases |results|
  {
    if results != [] {
      PresentIff(results[..|results| - 1], w);
      assert results == results[..|results| - 1] + [results[|results| - 1]];
    }
  }

  /** A warning is shown exactly when a check reports it of a revision that counts. */
  lemma {:induction false} WarningsIff(ctx: Context, order: seq<Phid>, w: RevisionWarning)
    requires ctx.Valid() && Known(ctx, order)
    ensures w in CollectWarnings(ctx, order) <==> exists k | 0 <= k < |order| && Counts(ctx, order[k]) :: Some(w) in ctx.revisions[order[k]].warnings
    decreases |order|
  {
    if order != [] {
      var n := |order| - 1;
      var v := order[n];
      WarningsIff(ctx, order[..n], w);
      CountsIff(ctx, v);
      PresentIff(ctx.revisions[v].warnings, w);
      hide Present, Counts;
      assert forall k | 0 <= k < n :: order[..n][k] == order[k];
    }
  }
}
