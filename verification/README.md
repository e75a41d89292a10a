# Lando, modelled and proved in Dafny

Lando takes stacks of Phabricator revisions, decides which of them may land, queues landing jobs, and has a
worker push them to Mercurial. This project models the parts of it that hold state, loops and graphs, and
proves what they guarantee. `dafny verify dfyconfig.toml` checks the whole project.

| Part | Modules | Main results |
|---|---|---|
| Landability of a stack | `Stacks`, `LandingChecks`, `Landability`, `Blockers` | `LeftIff`, `PermissionBlockers`, `ParentBlockers`, `AnyOrderForest`, `ParentsFirstResult`, `OrderIndependent`, `AnyOrderExact`, `RequestUnblockedIff`, `UnblockedRequest`, `LandablePaths` |
| Acknowledging warnings | `Assessments` | `TokenCanonical`, `BucketsConserve`, `RaiseIfBlockedOrUnacknowledged` |
| Submitting a request | `Submissions` | `UnblockedMayBeSubmitted`, `Post` |
| Landing jobs | `LandingJobs`, `LandingProtocol`, `LandingLaws`, `LandingWorker`, `LandingExamples` | `Queue.RunJob`, `Queue.TryToLand`, `ExecutionInvariants`, `RunPublishes`, `WholeBlockIff`, `OneBegunPerRepository`, `FinalForever`, `HeldRevisionStable`, `RecheckExact`, `RefusedRewriteExact` |
| Tree status | `Treestatus`, `TreestatusLaws`, `TreestatusEffects`, `TreestatusApi`, `TreestatusExamples` | `RunKeepsInv`, `RunKeepsAgreement`, `RevertRestores`, `UpdatesThenReverts`, `UpdateLogExact`, `RunKeepsMemoFresh`, `UpdateTreesEffect`, `UpdateStackEffect` |
| Patches and comments | `Text`, `HgExports`, `HgExportsLaws`, `HgExportsShapes`, `GitPatches`, `SecApproval` | `RoundTripIff`, `MessageRoundTrip`, `PartitionIff`, `MailIsRead`, `CommentIsRead`, `SplitWeave` |

`Options` and `Sequences` hold what several parts need.

Code that changes things in place is modelled by methods and classes over the fields it changes; each method
is tied to a specification function or states its new state outright, and the laws are lemmas about those
functions. In the protocol, a step (`LandingProtocol.Next`) is what the methods of `LandingWorker` are proved
to do, and an execution is any interleaving of submissions, claims, runs, cancellations, crashes, pushes by
others and the passing of time.

## Assumptions

Landability
- Phabricator data is complete: the stack, the visiting order and the fetched revisions cover the same
  revisions, and a requested path names some of them. Nothing is assumed about the order; results that need
  parents to be visited before their children say `ParentsFirst`.
- `networkx.all_simple_paths` and `is_simple_path` are taken to do what their names say; the model searches
  for the simple paths itself.
- The checks that look at nothing but one revision and its diff are an arbitrary map from checks to
  complaints. Warnings are arbitrary, too.

Acknowledging warnings
- JSON text and SHA-256 are injective.

Landing jobs
- One worker per set of repositories. Claiming and cancelling are atomic, as both lock rows.
- In executions, submission is atomic, from the assessment to the inserted job. The code looks a second time
  before it inserts the job, but has rewritten the stored patches by then (`LandingWorker.Queue.Post`). If the
  assessment was out of date, no revision is held twice if and only if no deferred job holds a requested one
  (`RecheckExact`), and active jobs keep their patches if and only if the request asks for the same ones again,
  whether the second look refuses it (`RefusedRewriteExact`) or not (`UnassessedRewriteExact`).
- The worker may crash at any time before it pushes, leaving any drafts and uncommitted changes in its clone;
  it does not crash between a push and the commit that records the landing. A push that fails has no effect.
- Reverting, purging and stripping in `clean_repo` work. An import of a patch succeeds, reports a problem, or
  fails after changing something without reporting a conflict.
- Conversion failures are possible for jobs of any kind, although only try pushes name a Git commit to convert
  (landoapi/hg.py:675-680, landoapi/api/try_push.py:174-175). The bound on them holds for all jobs.
- Of jobs that the queue query does not order, any may come first.

Tree status
- Operations are atomic and each one happens later than those before it, so that the position of a log stands
  for both its identifier and its time. An operation that raises before its commit has no effect.
- The memo holds whatever was put there until it is deleted, and does not serve a remembered `None`. The tree
  row inside a memoised view is the live row.
- Deleting a tree is refused while a log or a change entry refers to it: the tables declare foreign keys
  without cascades (migrations/versions/1dfc5aa9d1b2_add_treestatus_models.py).

Patches and comments
- Characters are compared without regard to case only for ASCII letters, and `int` reads ASCII digits.
- The decoding of mail into a subject and a body is given.

## Where code and comments differ

The model follows the code.

- The comment above the queue query says that a job in progress comes first and that there is at most one per
  repository (landoapi/models/landing_job.py:254-257). The first half is false: the sort puts deferred jobs
  before jobs in progress (`LandingJobs.StatusOrder`). A job that a crash left in progress is the next one if
  and only if no deferred job is eligible (`LandingLaws.LeftInProgressTakenUp`);
  `LandingExamples.CrashThenDeferred` shows an execution in which another job goes first. The second half holds
  as long as the grace period is not changed, for each repository but not for the queue as a whole
  (`LandingLaws.OneBegunPerRepository`); if the grace period may change, a step breaks it if and only if it
  claims a job of a repository that has another one in progress (`LandingLaws.AtMostOneExact`).
- With a landing request, every revision that is not on the requested path fails the check on the latest
  diff (landoapi/transplants.py:673-676). What is left of the stack is then part of the path, and the path that
  lands is a whole root-to-leaf path rather than a proper prefix of one (`Landability.RequestedIsWholePath`).
- The comment on the copied stack says that after all checks its paths are landable
  (landoapi/transplants.py:175-178). That depends on the order of the revisions: `Landability.AnyOrderExact`
  gives the exact condition and `Landability.ChildBeforeBlockedParent` an input for which it fails. For a
  request without blockers, `Landability.UnblockedRequest` gives the exact condition under which it waits for
  nothing, and `Landability.OrphanRequestUnblocked` is a request that lands a child without its open parent.
- The recheck before a job is inserted leaves out deferred jobs (landoapi/api/transplants.py:357-366), unlike
  the assessment (landoapi/transplants.py:690-698). `LandingLaws.RecheckExact` gives the exact condition under
  which it is enough and `LandingExamples.RecheckNotEnough` an execution in which it is not.
- An import that fails with anything but a conflict is ignored, and what it has changed is committed under the
  message of the whole patch (landoapi/hg.py:404-443). A block holds whole patches if and only if this did not
  happen (`LandingLaws.WholeBlockIff`); `LandingExamples.PartOfPatchLands` is an execution in which it does.
- `run_job` says that it returns whether the job is in a permanent state
  (landoapi/workers/landing_worker.py:265-267). It does, if and only if it was not the formatters that failed
  (landoapi/workers/landing_worker.py:408-412; `LandingWorker.Queue.RunJob`,
  `LandingExamples.FormattingFailureIsFinal`).
- Editing a log to an empty reason or an empty list of tags is not copied to the change stack
  (landoapi/api/treestatus.py:545-548). `TreestatusLaws.UpdateLogExact` gives the exact condition under which
  entries and logs stay together and `TreestatusExamples.EmptyEditParts` a run in which they do not.
- Edits of logs and of changes do not reach the memo (landoapi/api/treestatus.py:175-195).
  `TreestatusLaws.MemoFreshAfterLogEdit` and `TreestatusLaws.MemoFreshAfterStackEdit` give the exact conditions
  under which reads stay fresh and `TreestatusExamples.EditUnnoticed` a run in which they do not.
- With no enabled repository the queue query drops its repository filter instead of finding nothing
  (landoapi/models/landing_job.py:246-247). The claimed job is of an enabled repository if and only if there
  is one (`LandingLaws.RepositoryFilter`, `LandingExamples.ClaimedWithoutRepositories`); what the worker then
  does with it is part of `LandingWorker.Queue.Loop`.
- A commit message that starts like a header line loses that line when the stored patch is read back
  (landoapi/hgexports.py:223-226), for every diff and in no other case (`HgExportsLaws.RoundTripIff`).

## Model

| member | source | states |
|---|---|---|
| Stacks.BuildStackGraph | landoapi/stacks.py:21-41 | the nodes are exactly the listed revisions, and the pairs are exactly each revision with each of its predecessors |
| Stacks.StackGraph | landoapi/stacks.py:113-123 | the graph is closed, and the parents of a revision in it are exactly those that the (child, parent) pairs name |
| Stacks.RevisionStack.constructor | landoapi/stacks.py:112-123 | a new stack is closed and holds exactly the graph of its nodes and pairs |
| Stacks.RevisionStack.Copy | landoapi/transplants.py:175-178 | the copy starts with the same graph, in an object of its own |
| Stacks.RevisionStack.RemoveNode | landoapi/transplants.py:992-993 | the node and the edges at it are gone, and nothing else is |
| Stacks.RevisionStack.LandablePaths | landoapi/stacks.py:182-198 | on any closed graph, lists exactly the simple paths from a root to a leaf, isolated nodes included, each once |
| Stacks.AllSimplePaths | landoapi/stacks.py:194-196 | the search terminates and finds every simple path that properly extends the prefix and ends in a target, each once |
| Stacks.SimplePathBound | landoapi/stacks.py:194-196 | a simple path has no more nodes than the graph, which is why the search ends |
| Stacks.EveryNodeOnRootToLeafPath | landoapi/stacks.py:182-198 | in an acyclic stack every revision lies on a landable path |
| Stacks.OnePathPerLeaf | landoapi/stacks.py:182-198 | with at most one parent per node, two landable paths to the same leaf are the same path |
| Stacks.ParentsFirstIffAcyclic | landoapi/transplants.py:218-233 | a stack can be listed parents-first if and only if it has no cycle |
| LandingChecks.StackAssessmentState.FromAssessment | landoapi/transplants.py:151-206 | an assessment starts with a fresh copy of the stack, no recorded reasons and no landing repository |
| LandingChecks.StackAssessmentState.BlockerSingleLandingRepo | landoapi/transplants.py:851-875 | the loop over the path complains unless one repository, found after any leading revisions without one, is that of all later revisions; only then is the landing repository set |
| LandingChecks.StackAssessmentState.BlockerStackLandingPathLandable | landoapi/transplants.py:726-742 | complains if and only if no root-to-leaf path of the pruned stack starts with the requested path |
| LandingChecks.StackAssessmentState.CheckRevision | landoapi/transplants.py:973-994 | the in-place removal, the recorded reason and the reported blockers are those of applying the checks one after another to the state each of them leaves |
| LandingChecks.StackAssessmentState.RunRevisionChecks | landoapi/transplants.py:972-994 | the nested loops leave the landable stack, the reasons and the blockers of the fold over the visiting order, whatever that order is |
| LandingChecks.StackAssessmentState.CheckRevisionWarnings | landoapi/transplants.py:997-1009 | every warning that a check reports is kept, in order, if the revision counts, and none otherwise |
| LandingChecks.StackAssessmentState.RunWarningChecks | landoapi/transplants.py:996-1009 | collects the warnings of all revisions that count, in visiting order |
| LandingChecks.StackAssessmentState.RunLandingChecks | landoapi/transplants.py:944-1015 | the whole assessment: stack blockers first, then those of the loop, then the one on the pruned stack, which is judged after the loop; final stack, reasons, warnings and landing repository; what each of these amounts to for given groups, diffs, parents and repositories is stated by the `Blockers` rows |
| Landability.OpenParentsPass | landoapi/transplants.py:745-770 | the check on open parents passes if and only if there is at most one, and it is still in the landable stack and in the same repository |
| Landability.LandableGivenIff | landoapi/transplants.py:913-927 | no check complains if and only if the revision passes its own checks, is open, and has at most one open parent, which is alive and in the same repository |
| Landability.ApplyAllEffect | landoapi/transplants.py:975-994 | of the checks on a revision that is still there, the first complaint removes it and is the one reason recorded; later ones only add blockers |
| Landability.JudgedOnce | landoapi/transplants.py:972-994 | in any order, a revision is untouched before its turn and judged once, by what is left at its turn |
| Landability.PassesLocalChecksIff | landoapi/transplants.py:629-676 | a revision passes the checks that look at nothing else if and only if it has a landable repository, no check of its own complains and, with a request, the user is in the active group of its repository and it is requested with its latest diff |
| Landability.Judged | landoapi/transplants.py:972-994 | a revision is left in the end if and only if it could land given what was left at its turn |
| Landability.AnyOrderSurvivors | landoapi/transplants.py:745-792 | in any order, what is left is open, passes its own checks and has at most one open parent, in the same repository |
| Landability.AnyOrderForest | landoapi/transplants.py:972-994 | in any order, the stack that is left is closed, open, has at most one parent per node and one repository per edge, and is acyclic if the stack was |
| Landability.AnyOrderLandablePaths | landoapi/stacks.py:182-198 | in any order, each leaf of what is left ends exactly one landable path, and that path stays in one repository |
| Landability.LandableSetUnique | landoapi/transplants.py:745-792 | an acyclic stack has at most one set whose members are exactly those that can land given that set |
| Landability.ParentsFirstResult | landoapi/transplants.py:972-994 | parents first, the loop leaves such a set, and each removed revision has exactly one reason, the one that what is finally left gives it |
| Landability.OrderIndependent | landoapi/transplants.py:972-994 | any two parents-first orders give the same landable stack and the same recorded reasons |
| Landability.AnyOrderExact | landoapi/transplants.py:745-770 | for any order of an acyclic stack, the loop leaves exactly the landable set if and only if each revision that waits only for a blocked parent is visited after it |
| Landability.ChildBeforeBlockedParent | landoapi/transplants.py:757-761 | a two-revision stack whose child, visited first, stays landable although its parent is blocked |
| Landability.NoRevisionBlockersIff | landoapi/transplants.py:986-989 | in any order, the revision checks add no blocker if and only if every revision that counts is left |
| Landability.SurvivorOfRequest | landoapi/transplants.py:657-676 | with a request, whatever is left was requested and has a repository that Lando can land to |
| Landability.SurvivorPasses | landoapi/transplants.py:944-1015 | whatever is left passes those checks, in terms of groups, diffs, repositories and complaints |
| Landability.SurvivingPathLandable | landoapi/transplants.py:726-742 | a requested simple path of revisions that are all left is landable to its end and has a single repository |
| Landability.RequestUnblockedIff | landoapi/transplants.py:944-1015 | for any order of an acyclic stack, a request has no blocker if and only if no job holds the stack, the user has an email address, and the request is a simple path of the stack all of which is left; then the user is in the active group of the repository of each requested revision, each is requested with its latest diff, and no check of its own complains |
| Landability.RequestedIsWholePath | landoapi/transplants.py:738-742 | a requested prefix of a landable path is all of it, and all that is left |
| Landability.UnblockedRequest | landoapi/transplants.py:944-1015 | in any order, an unblocked request is a landable path from root to leaf that consists of exactly what is left, in the landing repository, in whose active group the user is, each revision with its latest diff and without a complaint of its own; each of its revisions waits only for the one before it, and the first for nothing, if and only if the open parents of the first were looked at before it, which parents-first orders guarantee |
| Landability.RootWaitsOnlyForLater | landoapi/transplants.py:745-770 | in any order, a root of what is left has no open parent if and only if its open parents were looked at before it |
| Landability.OrphanRequestUnblocked | landoapi/transplants.py:944-1015 | a request for a child that is listed before its open parent has no blocker, although the parent does not land with it |
| Landability.SingleRequestUnblocked | landoapi/transplants.py:944-1015 | a single open revision, requested with its latest diff by a member of the active group, has no blocker |
| Blockers.LeftIff | landoapi/transplants.py:629-799 | in any order, a revision is left if and only if it is open, has a landable repository, is requested with its latest diff by a member of the active group if there is a request, no check of its own complains, and it has no open parent or a single one, still there at its turn and in the same repository; closed parents do not count |
| Blockers.PermissionBlockers | landoapi/transplants.py:629-654 | a missing repository, insufficient permissions and expired access are each reported if and only if there is a request and a requested revision has no landable repository, the user is in neither group of it, or only in the membership group |
| Blockers.PermissionRecorded | landoapi/transplants.py:975-994 | with a request, the one reason recorded for a revision whose active group the user is not in: expired access for a member of the membership group, insufficient permissions otherwise |
| Blockers.RepoBlockers | landoapi/transplants.py:773-784 | a revision without a repository, or in one that is not landed to, is reported if and only if it counts |
| Blockers.RevisionBlockers | landoapi/transplants.py:657-676 | a closed revision, and one not requested with its latest diff, are reported if and only if they count |
| Blockers.LocalBlockers | landoapi/transplants.py:802-941 | the complaints of the checks on one revision are reported exactly as they are, for the revisions that count |
| Blockers.ParentBlockers | landoapi/transplants.py:745-770 | several open parents, a single one that is gone at the turn of the child, and a single one in another repository are each reported exactly when a revision that counts has them; closed parents never are |
| Blockers.AncestorBlockers | landoapi/transplants.py:795-799 | a blocked ancestor is reported if and only if a revision that counts is not left in the end |
| Blockers.RequestBlockers | landoapi/transplants.py:615-723 | a landing in progress, a missing email address and a request that is no path are reported exactly then |
| Blockers.PathRepoBlockers | landoapi/transplants.py:851-875 | a path without a repository is reported if and only if no revision of it has one, and a mixed path if and only if a revision differs in its repository, or lack of one, from an earlier one that has one |
| Blockers.LandablePathBlocker | landoapi/transplants.py:726-742 | a path is reported as not landable if and only if no root-to-leaf path of what is left starts with it |
| Blockers.BlockerOrigin | landoapi/transplants.py:972-994 | every blocker that the loop reports comes from a check on a revision that counts, at its turn |
| Blockers.ComplaintReported | landoapi/transplants.py:986-989 | and every complaint of a check on a revision that counts is reported |
| Blockers.WarningLaws | landoapi/transplants.py:996-1009 | the warnings of two parts of the order are those of the first followed by those of the second, and those of a revision are what its checks report, in their order, if it counts |
| Blockers.WarningsIff | landoapi/transplants.py:996-1009 | a warning is reported if and only if a check reports it for a revision that counts |
| Assessments.SortSorted | landoapi/transplants.py:293 | sorting leaves the keys in order |
| Assessments.SortedUnique | landoapi/transplants.py:293 | two sorted lists with the same elements are equal, so sorting is canonical |
| Assessments.TokenCanonical | landoapi/transplants.py:283-294 | two lists of warnings have the same token if and only if the triples of check, revision and details in them are the same up to order; there is no token if and only if there are no warnings |
| Assessments.ChangedDetailsChangeToken | landoapi/transplants.py:283-325 | a warning whose details have changed has another token |
| Assessments.StackAssessment.AddToBucket | landoapi/transplants.py:261-275 | a warning goes to the end of the bucket of its check, opened behind the others by its first warning; all other buckets stay |
| Assessments.StackAssessment.ToDict | landoapi/transplants.py:258-281 | one bucket per check that warns, in the order of first warnings, each with exactly its warnings in order, and the token of the warnings |
| Assessments.BucketsConserve | landoapi/transplants.py:258-275 | the buckets hold exactly the given warnings, each as often as it was given |
| Assessments.FirstWarningIs | landoapi/transplants.py:261-270 | the first warning of a check, from which its bucket takes its name, is the one that no other warning of the check precedes |
| Assessments.StackAssessment.RaiseIfBlockedOrUnacknowledged | landoapi/transplants.py:296-325 | for whatever list of warnings the token was made from, a request proceeds if and only if nothing blocks it and the triples of check, revision and details in that list are those of the current warnings, up to order; which of the three refusals is raised otherwise |
| Submissions.UnblockedMayBeSubmitted | landoapi/api/transplants.py:200-345 | an unblocked request is a path of distinct revisions that no active job holds, the second look will find nothing, the diffs are the requested ones, every revision is in the landing repository, in whose active group the user is, and the submission step is enabled for it |
| Submissions.Post | landoapi/api/transplants.py:200-400 | a job is created if and only if nothing blocks the request and its token acknowledges the current warnings, and then the user is in the active group of the landing repository, the job is new, submitted and of that repository, its rows carry the requested revisions in order with their latest diffs, and the stored patches are those given; otherwise the tables stay as they are, with the right refusal |
| LandingJobs.JobQueue | landoapi/models/landing_job.py:225-260 | lists exactly the eligible jobs, each once, sorted by status, priority and age; the first is one that no eligible job goes before |
| LandingJobs.InsertJob | landoapi/models/landing_job.py:258 | putting one more job into a sorted list keeps it sorted and free of duplicates |
| LandingJobs.ClaimIsFair | landoapi/models/landing_job.py:225-273 | a submitted job is never the next one while a submitted job of its repository waits that is older and no less urgent, or more urgent and no younger |
| LandingJobs.StatusOrder | landoapi/models/landing_job.py:254-258 | no job in progress goes before a waiting deferred one, no submitted job before either |
| LandingJobs.NextIff | landoapi/models/landing_job.py:225-273 | which job is next, in terms of statuses, repositories, times and priorities |
| LandingJobs.TransitionEffect | landoapi/models/landing_job.py:331-387 | each action changes the status, and landing also the landed commit, and nothing else |
| LandingProtocol.BlockIsBlock | landoapi/hg.py:540-631 | what is published for patches: one commit each, in their order, with what was imported of it; if formatters changed anything, that is part of the commit if there is just one, and a commit of its own on top otherwise |
| LandingLaws.TryIgnoresLeftovers | landoapi/hg.py:663-686 | the outcome of an attempt does not depend on what an earlier attempt or a crash left in the clone |
| LandingLaws.StatusChanges | landoapi/models/landing_job.py:331-387 | no step changes a job that has failed, landed or been cancelled; only a submitted or deferred job becomes cancelled; attempts never go down |
| LandingLaws.RewriteEffect | landoapi/api/transplants.py:287-345 | each requested revision ends up with its requested diff and patch, and every other one as it was |
| LandingLaws.AssociateEffect | landoapi/models/landing_job.py:275-307 | a new job gets one row per requested revision with its index and diff, and the rows of other jobs stay |
| LandingLaws.SubmissionExclusive | landoapi/api/transplants.py:349-383 | a submission keeps it so that no two active jobs hold the same revision |
| LandingLaws.SubmissionPatches | landoapi/api/transplants.py:287-345 | a submission overwrites no patch that an active job is going to land |
| LandingLaws.SortedPathUnique | landoapi/models/landing_job.py:138-143 | the indices of its rows determine the order of the revisions of a job |
| LandingLaws.RunsWhatWasRequested | landoapi/workers/landing_worker.py:326-331 | the patches that a run applies are those of the request, in its order |
| LandingLaws.RunningContributes | landoapi/workers/landing_worker.py:278-456 | a run keeps one block per landed job, made of the requested patches, and none for any other job |
| LandingLaws.RunConversions | landoapi/workers/landing_worker.py:299-312 | a run keeps the deferrals for failed conversions at four or fewer, and below the attempts made |
| LandingLaws.StepKeepsInv | landoapi/workers/landing_worker.py:87-129 | every step keeps the invariant: recorded requests, exclusive revisions, stable patches, remotes that hold just the contributions that the steps have to make, blocks that match jobs, bounded conversions |
| LandingLaws.ExecutionInvariants | landoapi/workers/landing_worker.py:250-490 | at every point of every execution, each remote is its first content followed by exactly one contiguous block per landed job and, between the blocks, exactly what others pushed in the steps so far, in its order: a block holds one commit per requested patch, in order, with the formatting amended to a single one and on top of several, and attempts that do not land add nothing; no two active jobs hold the same revision; at most four conversion deferrals per job |
| LandingLaws.OutsideRecorded | landoapi/workers/landing_worker.py:278-456 | what a remote holds besides the blocks of landed jobs is, in order, what the steps say that others pushed |
| LandingLaws.RunPublishes | landoapi/workers/landing_worker.py:250-456 | in any execution, a run lands its job if and only if the tree is open, everything works and nobody else pushes, and then adds one commit per requested patch, in order, with the formatting amended to a single one and on top of several; otherwise it adds nothing but what others pushed meanwhile |
| LandingLaws.WholeBlockIff | landoapi/hg.py:394-443 | a block holds the patches as wholes, in order, with formatting as expected, if and only if no import failed without reporting a conflict |
| LandingLaws.FinalForever | landoapi/models/landing_job.py:331-387 | once failed, landed or cancelled, a job stays exactly as it is for the rest of an execution |
| LandingLaws.RecordedDiffsFrozen | landoapi/models/landing_job.py:145-159 | the revisions recorded for a job, with their diffs and indices, never change after its submission |
| LandingLaws.HeldRevisionFrozen | landoapi/api/transplants.py:322-345 | no step changes the stored diff or patch of a revision that a job holds which is active after the step |
| LandingLaws.HeldRevisionStable | landoapi/api/transplants.py:322-345 | the stored diff and patch of a revision stay the same for as long as a job holding it is active |
| LandingLaws.RecheckExact | landoapi/api/transplants.py:354-383 | on the strength of the recheck alone, no revision ends up held twice if and only if no deferred job holds a requested one |
| LandingLaws.RefusedRewriteExact | landoapi/api/transplants.py:318-367 | a submission that the recheck refuses leaves active jobs their patches if and only if it asks for the same diffs and patches wherever it names a revision of theirs |
| LandingLaws.UnassessedRewriteExact | landoapi/api/transplants.py:318-383 | the same for a submission that gets past the recheck on an assessment that is out of date |
| LandingLaws.TakenIff | landoapi/transplants.py:679-703 | a stack is taken if and only if a submitted, deferred or running job holds one of its revisions; jobs that failed, landed or were cancelled leave theirs free |
| LandingLaws.RecheckIff | landoapi/api/transplants.py:354-367 | the second look fails if and only if a submitted or running job holds a requested revision |
| LandingLaws.AtMostOneExact | landoapi/models/landing_job.py:254-258 | a step gives a repository a second job in progress if and only if it claims a job of a repository that has another one in progress |
| LandingLaws.LeftInProgressTakenUp | landoapi/models/landing_job.py:254-258 | the only eligible job in progress is the next one if and only if no deferred job is eligible |
| LandingLaws.OneBegunPerRepository | landoapi/models/landing_job.py:239-273 | in every execution with one grace period, whatever crashes and whichever repositories are enabled, no repository has two jobs that were begun and are not finished, so at most one in progress |
| LandingLaws.RepositoryFilter | landoapi/models/landing_job.py:244-247 | the next job is of a given repository if and only if some are given; with none, it is the next of all repositories |
| LandingExamples.RecheckNotEnough | landoapi/api/transplants.py:354-383 | an execution whose recheck lets a revision through that a deferred job holds: it is then held twice, and the patch of the deferred job is gone |
| LandingExamples.CrashThenDeferred | landoapi/models/landing_job.py:254-258 | an execution in which, after a crash, a deferred job goes before the one left in progress, and two repositories have a job in progress |
| LandingExamples.PartOfPatchLands | landoapi/hg.py:394-443 | an execution that publishes a part of a patch and marks its job as landed |
| LandingExamples.FormattingFailureIsFinal | landoapi/workers/landing_worker.py:399-412 | an execution in which the formatters fail and the job has failed for good |
| LandingExamples.ClaimedWithoutRepositories | landoapi/models/landing_job.py:246-247 | a state in which a job may be claimed with no repository enabled |
| LandingWorker.HgRepo.CleanRepo | landoapi/hg.py:335-364 | uncommitted changes are gone, and so are drafts unless they are to be kept; published commits stay |
| LandingWorker.HgRepo.UpdateRepo | landoapi/hg.py:663-686 | a successful update leaves exactly what the remote has, whatever was in the clone |
| LandingWorker.HgRepo.Commit | landoapi/hg.py:437-443 | the uncommitted changes become one draft on top |
| LandingWorker.HgRepo.ApplyPatch | landoapi/hg.py:366-443 | a successful import adds one draft made of the whole patch and nothing else, even when the first attempt had applied parts of it; an import that fails without a conflict adds one made of the part that was applied |
| LandingWorker.HgRepo.FormatStack | landoapi/hg.py:540-631 | without changes by the formatters the drafts stay; with changes a single draft is amended by them and any other stack gets one draft on top, with its own drafts unchanged and in order; nothing is left uncommitted |
| LandingWorker.HgRepo.Push | landoapi/hg.py:633-661 | the remote gets exactly the drafts, and only if nobody has pushed since the pull; a failed push changes nothing of ours |
| LandingWorker.Queue.AddRevisions | landoapi/models/landing_job.py:275-278 | exactly one new row per revision of the new job; all earlier rows stay |
| LandingWorker.Queue.SortRevisions | landoapi/models/landing_job.py:280-294 | the rows of the job are numbered in the given order; no row of another job changes |
| LandingWorker.Queue.SetLandedRevisionDiffs | landoapi/models/landing_job.py:296-307 | each row of the job records the current diff of its revision and keeps its index; no row of another job changes |
| LandingWorker.Queue.AddRevisionsToJob | landoapi/models/landing_job.py:421-426 | the new job has exactly the rows of its revisions, numbered in their order |
| LandingWorker.Queue.RewriteRevisions | landoapi/api/transplants.py:318-345 | the loop leaves the rows that overwriting the requested revisions one by one leaves |
| LandingWorker.Queue.InsertJob | landoapi/api/transplants.py:369-383 | the new job is submitted, and its rows carry the requested order and the diffs just written |
| LandingWorker.Queue.Post | landoapi/api/transplants.py:283-383 | after the assessment: refuses if and only if a submitted or running job holds a requested revision, with the stored patches rewritten all the same; otherwise does exactly the submission step |
| LandingWorker.Queue.Put | landoapi/api/landing_jobs.py:43-99 | cancels if and only if the requester asks for it while the job is submitted or deferred, and then takes exactly the cancellation step; each of the other answers has its exact condition |
| LandingWorker.Queue.ClaimNext | landoapi/workers/landing_worker.py:101-115 | takes exactly a claim step for a job that is next, or finds that no job is eligible |
| LandingWorker.Queue.LoadRevisions | landoapi/models/landing_job.py:138-143 | yields the revisions of the job in the order of their indices |
| LandingWorker.Queue.TryIfOpen | landoapi/workers/landing_worker.py:269-284 | with the tree closed the job is deferred and the clone stays as it is; otherwise the attempt is made, and no draft and no change is left in the clone; it is told apart exactly when the formatters failed |
| LandingWorker.Queue.TryToLand | landoapi/workers/landing_worker.py:278-456 | driving the clone patch by patch, the job lands if and only if everything works and nobody else pushes; the remote then gains one commit per patch, in order, with the formatting amended to a single one and on top of several, and otherwise nothing of ours; it is told apart whether the formatters failed |
| LandingWorker.Queue.LandPatches | landoapi/workers/landing_worker.py:326-456 | from a clean, updated clone: the loop over the patches, the formatters and the push end as an attempt is specified to end |
| LandingWorker.Added | landoapi/workers/landing_worker.py:278-456 | the remote gains the commits of the patches, in order and formatted, if the job lands, what others pushed if the attempt got as far as pushing, and nothing otherwise |
| LandingWorker.Outcome | landoapi/workers/landing_worker.py:278-456 | the job lands, is deferred or fails under exactly these conditions on tree, pull, attempts, imports, formatters and push; only status and landed commit change |
| LandingWorker.Queue.RunJob | landoapi/workers/landing_worker.py:250-456 | takes exactly the running step for the claimed job, and says outright when it has landed, is deferred or has failed, which of its fields change, and what the remote gains: the commits of its patches in order with the formatting, or only what others pushed; past the tree check no draft is left; the run is reported as finished if and only if the job has landed or failed and it was not the formatters that failed |
| LandingWorker.Queue.Loop | landoapi/workers/landing_worker.py:87-129 | one iteration claims the next job and concludes it by its attempt, counting the attempt, or does nothing if and only if no job is eligible; the job is of an enabled repository if and only if there is one; with its tree closed it ends up deferred and nothing else changes |
| LandingWorker.AssociationsAre | landoapi/models/landing_job.py:275-307 | three passes over the rows (insert, number, record diffs) leave exactly the rows that the submission step describes |
| Treestatus.LastLog | landoapi/api/treestatus.py:133-149 | the newest log of a tree, if it has any |
| TreestatusLaws.UpdateEachEffect | landoapi/api/treestatus.py:418-432 | an update gives each named tree the new status and, through its new log, the new reason and tags; it leaves the view of every other tree alone |
| TreestatusLaws.UpdateEachFrame | landoapi/api/treestatus.py:225-263 | an update appends logs of the named trees only and forgets exactly their memoised views |
| TreestatusLaws.RememberedEntry | landoapi/api/treestatus.py:107-124 | a remembered entry holds the state just before, the state it gave, and the log that gave it |
| TreestatusLaws.RememberKeepsInv | landoapi/api/treestatus.py:434-451 | the entries of a new change name logs of their own trees that no other entry names |
| TreestatusLaws.ReadAgreesWithQuery | landoapi/api/treestatus.py:127-151 | in a database that keeps the invariant, whatever was edited, the memoised read and a fresh query agree on which trees exist and on their status |
| TreestatusLaws.RevertAll | landoapi/api/treestatus.py:326-341 | reverting sets each tree of the entries to its remembered state and leaves the view of every other tree alone |
| TreestatusLaws.WriteLogsEffect | landoapi/api/treestatus.py:289-298 | editing a change writes the reason and tags of each entry into the log it names, and into no other log |
| TreestatusLaws.UpdateStackKeepsInv | landoapi/api/treestatus.py:278-308 | editing a live change keeps the invariant and never misses a log |
| TreestatusLaws.UpdateStackKeepsAgreement | landoapi/api/treestatus.py:289-300 | editing a change keeps every entry equal to the log it names |
| TreestatusLaws.MemoFreshAfterTextEdit | landoapi/api/treestatus.py:175-195 | memoised views stay fresh after any rewriting of the text of logs if and only if the newest log of each memoised tree stays as it was |
| TreestatusLaws.MemoFreshAfterLogEdit | landoapi/api/treestatus.py:526-554 | memoised views stay fresh after the edit of a log if and only if it is the newest log of no memoised tree or the edit changes nothing in it |
| TreestatusLaws.MemoFreshAfterStackEdit | landoapi/api/treestatus.py:278-308 | memoised views stay fresh after the edit of a change if and only if it puts no other text into the newest log of a memoised tree |
| TreestatusLaws.RunKeepsMemoFresh | landoapi/api/treestatus.py:127-151 | in every run whose edits leave the newest logs of memoised trees alone, the memoised read serves exactly what a fresh query would, reason and tags included |
| TreestatusLaws.UpdateLogExact | landoapi/api/treestatus.py:526-552 | a log edit keeps entries equal to their logs if and only if no entry naming the log has text that the edit replaces by nothing |
| TreestatusLaws.DeleteTreeKeepsInv | landoapi/api/treestatus.py:154-172 | deleting a tree leaves no log, entry or memoised view without its tree |
| TreestatusLaws.StepKeepsInv | landoapi/api/treestatus.py:225-554 | every operation keeps the invariant: memo and query agree, rows and newest logs agree on the status, entries name logs of their own tree, no log is shared |
| TreestatusLaws.RunKeepsInv | landoapi/api/treestatus.py:127-172 | that invariant holds at every point of every run from the empty database |
| TreestatusLaws.RunKeepsAgreement | landoapi/api/treestatus.py:289-300 | in every run whose log edits are not empty, each live entry has exactly the status, reason and tags of the log it names, and no two entries name the same log |
| TreestatusLaws.RunKeepsMemories | landoapi/api/treestatus.py:289-298 | whatever runs in between, a live change remembers the same trees and states |
| TreestatusLaws.RememberedChange | landoapi/api/treestatus.py:434-451 | a remembered update that succeeds adds one change, which remembers the state of each updated tree just before |
| TreestatusLaws.RevertSetsRemembered | landoapi/api/treestatus.py:311-346 | reverting a live change sets its trees to the remembered states, leaves the other trees alone and takes the change off the stack |
| TreestatusLaws.RevertRestores | landoapi/api/treestatus.py:311-346 | a remembered update, any operations whatever, then its revert: every tree of the change is back at the status, reason and tags it had just before the update, and the revert touches no other tree |
| TreestatusLaws.UpdatesThenReverts | landoapi/api/treestatus.py:311-346 | any number of remembered updates reverted newest first bring every tree back to its first status, reason and tags, and the change stack back to what it was |
| TreestatusEffects.ViewIs | landoapi/api/treestatus.py:61-89 | a view has the message and category of the row, and the state of the newest log of the tree if there is one, or else that of the row |
| TreestatusEffects.ReadEffect | landoapi/api/treestatus.py:127-151 | a read serves the memoised view or else a fresh one, which it memoises, and changes nothing else |
| TreestatusEffects.FoundAllIff | landoapi/api/treestatus.py:376-387 | as many trees are found as were named if and only if the names are distinct and all exist |
| TreestatusEffects.UpdateTreesEffect | landoapi/api/treestatus.py:374-463 | the exact condition of each refusal, which changes nothing, closing without tags among them; otherwise each named row takes the given status, reason and message and keeps its category, each named tree gets a log with the given status, reason or "no change" and tags if a status is given, named trees leave the memo, and a remembered update adds one change with the state of each tree before and after |
| TreestatusEffects.UpdateStackEffect | landoapi/api/treestatus.py:278-308 | a change is edited if and only if it and the log of each of its entries exist; then its reason and the reason and tags of its entries are the given ones, or stay where none are given, the log that an entry names gets the same, and statuses, earlier states, other changes, other logs and trees stay; otherwise nothing changes |
| TreestatusEffects.EditReachesLogs | landoapi/api/treestatus.py:289-298 | in every database that keeps the invariant, a change that exists can be edited, and each entry then agrees with its log |
| TreestatusEffects.RevertChangeEffect | landoapi/api/treestatus.py:311-346 | reverting adds one log per entry with the state before the change, puts its status and reason into the row, keeps messages and categories, forgets exactly the views of its trees, and takes just this change off the stack |
| TreestatusEffects.UpdateLogEffect | landoapi/api/treestatus.py:526-554 | the edited log keeps tree and status and takes the given reason and tags; entries that name it take those that are not empty; everything else stays |
| TreestatusEffects.MakeTreeEffect | landoapi/api/treestatus.py:483-511 | a new tree has the given row and no other tree changes; it is refused if and only if it exists |
| TreestatusEffects.DeleteTreeEffect | landoapi/api/treestatus.py:154-172 | a tree is deleted if and only if it exists and neither a log nor an entry is about it |
| TreestatusExamples.EmptyEditParts | landoapi/api/treestatus.py:545-548 | a run in which a log edited to have no tags parts from the entry that names it |
| TreestatusExamples.EditUnnoticed | landoapi/api/treestatus.py:526-554 | a run after which the memoised read still serves the reason from before an edit |
| TreestatusApi.Store.GetTreeByName | landoapi/api/treestatus.py:127-151 | serves and fills the memo as the specification says, and changes nothing else |
| TreestatusApi.Store.GetCombinedTrees | landoapi/api/treestatus.py:198-222 | finds each existing tree that is asked for once, or every tree if none is asked for |
| TreestatusApi.Store.UpdateTreeStatus | landoapi/api/treestatus.py:225-263 | fails if and only if there is a reason that is not empty without a status; otherwise the row takes the given status, reason and message, a given status adds a log, and the view leaves the memo |
| TreestatusApi.Store.UpdateFetched | landoapi/api/treestatus.py:418-432 | the loop over the trees does what updating them one after another does |
| TreestatusApi.Store.RememberFetched | landoapi/api/treestatus.py:442-449 | remembers for each tree its view before and its view after the update |
| TreestatusApi.Store.UpdateTrees | landoapi/api/treestatus.py:374-463 | refuses, rolls back or applies an update to all trees or none; the refusals for unknown trees and for closing without tags have their exact conditions, a refused update changes nothing, and an applied one changes rows, logs, memo and stack as `TreestatusEffects.UpdateTreesEffect` says |
| TreestatusApi.Store.RevertChange | landoapi/api/treestatus.py:311-346 | the loop, reading through the memo, has the effect that the specification gives to a revert |
| TreestatusApi.Store.EditLogged | landoapi/api/treestatus.py:289-298 | succeeds if and only if every entry names an existing log; then each entry has the given reason and tags, or its own where none are given, and each log the reason and tags of the last entry that names it, while all other logs stay |
| TreestatusApi.Store.UpdateStack | landoapi/api/treestatus.py:278-308 | succeeds if and only if the change and the logs of its entries exist; then change, entries and logs have the given reason and tags, and everything else stays; otherwise nothing changes |
| TreestatusApi.Store.UpdateLog | landoapi/api/treestatus.py:526-554 | the edited log and the entries that follow it, over all changes |
| TreestatusApi.Store.FollowEdit | landoapi/api/treestatus.py:539-550 | only entries that name the log change, and only by values that are not empty |
| TreestatusApi.Store.MakeTree | landoapi/api/treestatus.py:483-511 | adds the tree, or refuses if it exists |
| TreestatusApi.Store.RemoveTreeByName | landoapi/api/treestatus.py:154-172 | removes row and memoised view, or refuses if the tree is unknown or referred to |
| TreestatusApi.IsOpen | landoapi/treestatus.py:15-26 | a tree is closed to landings if and only if the view that is served says so; an unknown tree is open |
| HgExports.HgPatchHelper.constructor | landoapi/hgexports.py:195-208 | after construction the headers are those of the header block and the stream is at its start |
| HgExports.HgPatchHelper.Open | landoapi/hgexports.py:195-236 | there is no reader for a patch if and only if no header is found in its header block |
| HgExports.HgPatchHelper.ReadLine | landoapi/hgexports.py:223 | reads the next line of the stream and leaves the rest |
| HgExports.HgPatchHelper.ParseHeader | landoapi/hgexports.py:219-236 | the header block is the longest run of header lines at the start; a later header overrides an earlier one of the same name |
| HgExports.HgPatchHelper.FindHeader | landoapi/hgexports.py:227-231 | of the known names, in their order, the first that the line gives a value |
| HgExports.HgPatchHelper.GetCommitDescription | landoapi/hgexports.py:238-260 | returns the stripped lines between the header block and the stop line, and leaves the stream at its start |
| HgExports.HgPatchHelper.GetDiff | landoapi/hgexports.py:262-282 | returns everything from the stop line on, and leaves the stream at its start |
| HgExports.HgPatchHelper.Write | landoapi/hgexports.py:175-181 | returns the exact text, and leaves the stream at its start |
| HgExportsLaws.PartitionIff | landoapi/hgexports.py:219-282 | for any text, header lines, description before stripping and diff concatenate to exactly the text if and only if no start line inside the header block is announced |
| HgExportsLaws.ParseDecimal | landoapi/hgexports.py:203-208 | the printed number of the start line reads back as that number |
| HgExportsLaws.PrintedLinesAre | landoapi/hgexports.py:51-94 | the lines of a printed patch: four header lines, the message lines, an empty line, the lines of the diff; `HgExportsShapes.PrintedText` states them for a message given by its lines |
| HgExportsLaws.PrintedHeaders | landoapi/hgexports.py:58-90 | the headers of a printed patch read back as printed, whatever the name, address and time stamp contain |
| HgExportsLaws.NoLineBreaksHasNone | landoapi/hgexports.py:97-99 | a header value cannot start a line of its own |
| HgExportsLaws.PrintThenRead | landoapi/hgexports.py:68-94 | for a message that is not blank and does not start like a header line, the message with its line breaks made equal, an empty line and the exact diff, and the three headers come back |
| HgExportsLaws.HeaderLikeMessageIsCut | landoapi/hgexports.py:223-226 | with a message that starts like a header line, whatever the diff, message and diff do not both come back |
| HgExportsLaws.RoundTripIff | landoapi/hgexports.py:68-282 | for any diff and any message that is not blank, printing and reading back gives the message with its line breaks made equal and the exact diff after an empty line if and only if the first line of the message does not start like a header line; lines that look like the start of a diff do no harm |
| HgExportsLaws.BlankMessage | landoapi/hgexports.py:84-94 | a blank message comes back empty, and the diff with one more empty line before it |
| HgExportsShapes.MessageRoundTrip | landoapi/hgexports.py:84-282 | for a message given as lines, with any white space around and any line breaks between them, the patch reads back as the lines joined by newlines and the exact diff if and only if the first line does not start with "# " |
| HgExportsShapes.EveryTextIsLaidOut | landoapi/hgexports.py:84 | every message that is not blank is given by lines, line breaks and white space in this way |
| HgExportsShapes.PrintedText | landoapi/hgexports.py:51-94 | every line of the message is printed, in order, and the announced start line is the empty one before the diff |
| HgExportsShapes.HeaderTextIs | landoapi/hgexports.py:97-99 | a header value loses its line breaks and the white space around it, and nothing else |
| HgExportsShapes.PlainHeaderLines | landoapi/hgexports.py:58-90 | an author and a time stamp without line breaks are printed as they are |
| HgExportsShapes.PlainHeaders | landoapi/hgexports.py:58-90 | and are read back as they are |
| HgExportsShapes.NamedHeader | landoapi/hgexports.py:210-217 | a line with "#", white space, the name in any case and white space again gives the header the rest of the line, stripped |
| HgExportsShapes.HeaderIsNamed | landoapi/hgexports.py:210-217 | and only such a line gives it a value |
| HgExportsShapes.FirstNamed | landoapi/hgexports.py:227-231 | a line sets the first name to which it gives a value that is not empty |
| HgExportsShapes.LastLineSets | landoapi/hgexports.py:223-231 | each header has the value that the last line to set it gives it |
| HgExportsShapes.ShapedIsDiffLine | landoapi/hgexports.py:49 | "diff", white space, a word, white space and another word start a diff |
| HgExportsShapes.DiffLineIsShaped | landoapi/hgexports.py:49 | and only a line that starts like this does |
| HgExportsShapes.StopsAtAnnounced | landoapi/hgexports.py:250-256 | an announced start line is counted from one; the reader stops there and nowhere else |
| HgExportsShapes.StopsAtDiffLine | landoapi/hgexports.py:250-256 | without an announcement, or with that of line zero, it stops at the first diff line |
| HgExportsShapes.IntegerIs | landoapi/hgexports.py:203-208 | a start line may have white space around it and a sign |
| HgExportsShapes.IntegerIff | landoapi/hgexports.py:203-208 | and is a number if and only if it has digits, with single underscores between them |
| HgExportsShapes.UnderscoresIgnored | landoapi/hgexports.py:203-208 | which make no difference to the value |
| GitPatches.StripVersionInfo | landoapi/hgexports.py:324-339 | the lines before the last one that starts with two dashes; an error if and only if there is none |
| GitPatches.StripGitVersionInfoLines | landoapi/hgexports.py:324-339 | the backward scan finds that line |
| GitPatches.TakeMessage | landoapi/hgexports.py:351-367 | takes exactly the lines before the first separator, with an empty line after the subject if there are any, and consumes the separator |
| GitPatches.SkipToDiff | landoapi/hgexports.py:380-388 | stops at the first line that starts a diff |
| GitPatches.ParseEmailBody | landoapi/hgexports.py:341-397 | the single pass over the lines gives message and diff, or the error, of the specification |
| GitPatches.MailRoundTrip | landoapi/hgexports.py:341-397 | for a mail as Git writes it, parsing gives the subject, an empty line and the body, and exactly the diff, even if lines of the diff start with two dashes |
| GitPatches.EmptyCommit | landoapi/hgexports.py:368-376 | without a separator the version info is cut off the message, and the diff is empty |
| GitPatches.MailIsRead | landoapi/hgexports.py:341-397 | a mail with a title and a body given by the texts of its lines parses to the title alone, or to the title, an empty line and these texts, and to exactly its diff |
| GitPatches.TitleIs | landoapi/hgexports.py:351-352 | the title is the subject without "[PATCH] " before it and without what ends the line |
| GitPatches.SeparatorIff | landoapi/hgexports.py:358-360 | a separator is three dashes and whatever ends the line |
| GitPatches.ParsedWithSeparator | landoapi/hgexports.py:377-397 | for any lines with a separator: an error for the diff if and only if no diff line follows, one for the version info if nothing with two dashes follows that, and otherwise the message before the separator and the diff up to the last such line |
| GitPatches.ParsedWithoutSeparator | landoapi/hgexports.py:368-376 | for any lines without a separator: an error if no line of the message starts with two dashes, and otherwise the message up to the last such line and no diff |
| SecApproval.SplitComment | landoapi/secapproval.py:141-145 | a formatted comment splits into exactly three parts, the middle one being the message, if and only if the message has no fence |
| SecApproval.CommentRoundTrip | landoapi/secapproval.py:129-159 | parsing a formatted comment gives the title and summary of the stripped message, or is refused if the message is blank or has a fence; altered text is never returned |
| SecApproval.TitleAndSummary | landoapi/commit_message.py:278-287 | title, line break and summary are the message, up to white space between them; a message of one line is its own title and has no summary |
| SecApproval.TitleThenSummary | landoapi/commit_message.py:278-287 | the title is the first line, and the summary is what follows it, stripped |
| SecApproval.SplitFenced | landoapi/secapproval.py:141-145 | texts without fences that were joined by fences are found again |
| SecApproval.PartsStayApart | landoapi/secapproval.py:141-145 | every comment is joined from its parts in this way |
| SecApproval.CommentIsRead | landoapi/secapproval.py:129-159 | any comment is read if and only if it has exactly two fences and the text between them is not blank; each of the two errors has its exact condition |
| SecApproval.PreambleHasNoFence | landoapi/secapproval.py:27-39 | the text around the message has no fence of its own and ends in a line break |
| Text.StripFacts | landoapi/hgexports.py:84 | stripping removes white space at both ends, and nothing else |
| Text.SplitConcat | landoapi/hgexports.py:355 | lines that were concatenated are found again by splitting with their ends kept |
| Text.SplitWeave | landoapi/hgexports.py:84 | lines are what their text is split into, whatever line breaks come between them |
| Text.EveryTextIsWoven | landoapi/hgexports.py:84 | every text that does not end in white space consists of lines and line breaks in this way |
| Text.ConcatLines | landoapi/hgexports.py:223 | the lines of a stream concatenate to its text |

## Left out

- LandingLaws.ExecutionInvariants: says nothing of try pushes, where the target commit is given, the push is forced and the pull path differs from the push path.
- LandingWorker.HgRepo.Push: does not model forced pushes, which only try repositories use; they would give the remote a second head.
- Submissions.Post: takes the built patches as given; the flags, the reviewers, the rewriting of the commit message and the Phabricator tags are not modelled.
- LandingWorker.Queue.RunJob: the steps after a landing (reviewers from mots.yaml, bug updates, telling Phabricator) and the messages sent to users change nothing that is stated here.
- LandingWorker.Queue.Loop: throttling, pausing and the refreshing of the enabled repositories only decide when the next iteration happens and which repositories it is given.
- LandingLaws.StepKeepsInv: a crash between a push and the commit that records it is excluded; the job would then be attempted again on top of its own block.
- LandingJobs.ClaimIsFair: speaks of one claim; that a job is claimed eventually depends on the grace period, on the trees and on the remote.
- GitPatches.ParseEmailBody: the parsing of the mail headers by Python's `email` package is given.
- TreestatusLaws.ReadAgreesWithQuery: does not speak of reason and tags, which edits of logs do not bring to the memo; `RunKeepsMemoFresh` does, for the runs in which they agree.
- Assessments.BucketsConserve: the text of blockers and the JSON around the buckets are not modelled.
- The individual checks on one revision (planned changes, uplift approval, data classification, symlinks, try_task_config.json) and the individual warnings: each is a single branch, kept abstract.
- The conversion of revision numbers into identifiers before an assessment (landoapi/transplants.py:1109-1129).
- Defaults for change entries stored by older versions, and legacy columns of jobs and `Transplant` records.
- Orphaned change entries: reverting a change leaves its rows without a change; they only refer to trees that logs refer to as well.
- User names, and who changed what.
- HTTP handlers, authentication, Celery, caching of raw diffs, logging, configuration, SMTP.
- Phabricator and Bugzilla calls: fetched data is a parameter.
- Regular expressions on commit messages (reviewers, bugs, backouts, flags).
