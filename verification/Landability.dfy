/** What the pruning loop computes, and what an assessment without blockers guarantees. */
module Landability {

  import opened Options
  import opened Sequences
  import opened Stacks
  import opened Assessments
  import opened LandingChecks

  /** Every check but the last one, which only repeats that the node is gone. */
  const OWN_CHECKS: seq<Check> := REVISION_BLOCKER_CHECKS[..11]

  ghost predicate PassesLocalChecks(ctx: Context, v: Phid)
    requires ctx.Valid() && v in ctx.revisions
  {
    forall c | c in OWN_CHECKS && c != OpenParents && c != ClosedRevisions :: RunCheck(ctx, c, {}, v).None?
  }

  /** `v` may land given that exactly the revisions in `alive` may. */
  ghost predicate LandableGiven(ctx: Context, alive: set<Phid>, v: Phid)
    requires ctx.Valid() && v in ctx.revisions
  {
    var open := ctx.OpenParentsOf(v);
    && PassesLocalChecks(ctx, v)
    && !ctx.revisions[v].closed
    && |open| <= 1
    && (forall p | p in open :: p in alive && ctx.revisions[p].repo == ctx.revisions[v].repo)
  }

  /** The landable revisions, characterised without reference to any visiting order. */
  ghost predicate IsLandableSet(ctx: Context, alive: set<Phid>)
    requires ctx.Valid()
  {
    alive <= ctx.stack.nodes && forall v | v in ctx.stack.nodes :: v in alive <==> LandableGiven(ctx, alive, v)
  }

  // ---------------------------------------------------------------------------
  // One revision
  // ---------------------------------------------------------------------------

  ghost function FirstReason(ctx: Context, checks: seq<Check>, alive: set<Phid>, v: Phid): Option<Reason>
    requires ctx.Valid() && v in ctx.revisions
    decreases |checks|
  {
    if checks == [] then
      None
    else
      var earlier := FirstReason(ctx, checks[..|checks| - 1], alive, v);
      if earlier.Some? then earlier else RunCheck(ctx, checks[|checks| - 1], alive, v)
  }

  lemma {:induction false} NoReasonIff(ctx: Context, checks: seq<Check>, alive: set<Phid>, v: Phid)
    requires ctx.Valid() && v in ctx.revisions
    ensures FirstReason(ctx, checks, alive, v).None? <==> forall c | c in checks :: RunCheck(ctx, c, alive, v).None?
    decreases |checks|
  {
    if checks != [] {
      NoReasonIff(ctx, checks[..|checks| - 1], alive, v);
      assert checks == checks[..|checks| - 1] + [checks[|checks| - 1]];
    }
  }

  lemma {:induction false} ReasonDependsOnOpenParents(ctx: Context, checks: seq<Check>, a: set<Phid>, b: set<Phid>, v: Phid)
    requires ctx.Valid() && v in ctx.revisions && OpenAncestor !in checks
    requires forall p | p in ctx.OpenParentsOf(v) :: p in a <==> p in b
    ensures FirstReason(ctx, checks, a, v) == FirstReason(ctx, checks, b, v)
    decreases |checks|
  {
    if checks != [] {
      ReasonDependsOnOpenParents(ctx, checks[..|checks| - 1], a, b, v);
      assert checks[|checks| - 1] in checks;
    }
  }

  /** The complaint recorded for `v` when it is visited while `alive` is what is left. */
  ghost function ReasonFor(ctx: Context, alive: set<Phid>, v: Phid): Option<Reason>
    requires ctx.Valid() && v in ctx.revisions
  {
    FirstReason(ctx, OWN_CHECKS, alive, v)
  }

  lemma OpenParentsPass(ctx: Context, alive: set<Phid>, v: Phid)
    requires ctx.Valid() && v in ctx.revisions
    ensures RunCheck(ctx, OpenParents, alive, v).None? <==>
      && |ctx.OpenParentsOf(v)| <= 1
      && (forall p | p in ctx.OpenParentsOf(v) :: p in alive && ctx.revisions[p].repo == ctx.revisions[v].repo)
  {
    var open := ctx.OpenParentsOf(v);
    if |open| == 1 {
      SingletonSet(open);
    }
  }

  lemma LandableGivenIff(ctx: Context, alive: set<Phid>, v: Phid)
    requires ctx.Valid() && v in ctx.revisions
    ensures LandableGiven(ctx, alive, v) <==> ReasonFor(ctx, alive, v).None?
  {
    NoReasonIff(ctx, OWN_CHECKS, alive, v);
    OpenParentsPass(ctx, alive, v);
    assert OWN_CHECKS[2] == OpenParents && OWN_CHECKS[3] == ClosedRevisions;
    forall c | c in OWN_CHECKS && c != OpenParents
      ensures RunCheck(ctx, c, alive, v) == RunCheck(ctx, c, {}, v)
    {
      assert c != OpenAncestor;
    }
    assert RunCheck(ctx, ClosedRevisions, alive, v).None? <==> !ctx.revisions[v].closed;
    hide RunCheck;
  }

  lemma OwnChecksSuffice(ctx: Context, alive: set<Phid>, v: Phid)
    requires ctx.Valid() && v in alive && v in ctx.revisions
    ensures FirstReason(ctx, REVISION_BLOCKER_CHECKS, alive, v) == ReasonFor(ctx, alive, v)
  {
    assert REVISION_BLOCKER_CHECKS[11] == OpenAncestor;
  }

  /** Until the first complaint nothing changes; at the first complaint the node is removed and
      that complaint recorded; later complaints only add blockers. */
  lemma {:induction false} ApplyAllEffect(ctx: Context, checks: seq<Check>, v: Phid, pr: Progress)
    requires ctx.Valid() && v in ctx.revisions && Consistent(ctx, pr) && v in pr.landable.nodes
    ensures var r := ApplyAll(ctx, checks, v, pr);
      var reason := FirstReason(ctx, checks, pr.landable.nodes, v);
      && r.landable == (if reason.Some? then pr.landable.Remove(v) else pr.landable)
      && r.blocked == pr.blocked[v := pr.blocked[v] + ToSeq(reason)]
      && pr.blockers <= r.blockers
      && (r.blockers == pr.blockers <==> reason.None? || v !in ctx.BlockingPhids())
    decreases |checks|
  {
    hide RunCheck;
    assert pr.blocked[v] + [] == pr.blocked[v];
    if checks != [] {
      ApplyAllEffect(ctx, checks[..|checks| - 1], v, pr);
    }
  }

  // ---------------------------------------------------------------------------
  // A whole visiting order
  // ---------------------------------------------------------------------------

  /** What is left when it is the turn of `order[i]`. */
  ghost function AliveBefore(ctx: Context, order: seq<Phid>, i: nat): set<Phid>
    requires ctx.Valid() && i <= |order| && Known(ctx, order)
  {
    Pruned(ctx, order[..i]).landable.nodes
  }

  /** The complaint that `order[i]` meets when it is visited. */
  ghost function Verdict(ctx: Context, order: seq<Phid>, i: nat): Option<Reason>
    requires ctx.Valid() && i < |order| && Known(ctx, order)
  {
    ReasonFor(ctx, AliveBefore(ctx, order, i), order[i])
  }

  lemma PruneOne(ctx: Context, order: seq<Phid>, i: nat)
    requires ctx.Valid() && Known(ctx, order) && i < |order| && order[i] in AliveBefore(ctx, order, i)
    ensures var before, after := Pruned(ctx, order[..i]), Pruned(ctx, order[..i + 1]);
      var reason := Verdict(ctx, order, i);
      && after.landable.nodes == (if reason.Some? then before.landable.nodes - {order[i]} else before.landable.nodes)
      && after.blocked == before.blocked[order[i] := before.blocked[order[i]] + ToSeq(reason)]
      && before.blockers <= after.blockers
      && (after.blockers == before.blockers <==> reason.None? || order[i] !in ctx.BlockingPhids())
  {
    hide ApplyAll, RunCheck, FirstReason;
    assert order[..i + 1][..i] == order[..i];
    OwnChecksSuffice(ctx, AliveBefore(ctx, order, i), order[i]);
    ApplyAllEffect(ctx, REVISION_BLOCKER_CHECKS, order[i], Pruned(ctx, order[..i]));
  }

  /** The reasons recorded for `v` when it is the turn of `order[i]`. */
  ghost function ReasonsBefore(ctx: Context, order: seq<Phid>, i: nat, v: Phid): seq<Reason>
    requires ctx.Valid() && i <= |order| && Known(ctx, order) && v in ctx.stack.nodes
  {
    Pruned(ctx, order[..i]).blocked[v]
  }

  lemma NothingJudged(ctx: Context, order: seq<Phid>, v: Phid)
    requires ctx.Valid() && Known(ctx, order) && v in ctx.stack.nodes
    ensures v in AliveBefore(ctx, order, 0) && ReasonsBefore(ctx, order, 0, v) == []
  {
    assert order[..0] == [];
  }

  lemma OneJudged(ctx: Context, order: seq<Phid>, i: nat, v: Phid)
    requires ctx.Valid() && Known(ctx, order) && i < |order| && order[i] in AliveBefore(ctx, order, i) && v in ctx.stack.nodes
    ensures v in AliveBefore(ctx, order, i + 1) <==>
      v in AliveBefore(ctx, order, i) && (v == order[i] ==> Verdict(ctx, order, i).None?)
    ensures ReasonsBefore(ctx, order, i + 1, v) ==
      ReasonsBefore(ctx, order, i, v) + if v == order[i] then ToSeq(Verdict(ctx, order, i)) else []
  {
    hide Pruned, ApplyAll, RunCheck, FirstReason, ReasonFor, Verdict;
    PruneOne(ctx, order, i);
  }

  /** Each revision is judged once, when its turn comes: it stays, with no reason recorded, or
      goes, with that one reason recorded. Before its turn it is untouched. */
  lemma {:induction false} JudgedOnce(ctx: Context, order: seq<Phid>, n: nat, i: nat)
    requires ctx.Valid() && Enumerates(order, ctx.stack) && Known(ctx, order) && i < |order| && n <= |order|
    ensures order[i] in ctx.stack.nodes
    ensures order[i] in AliveBefore(ctx, order, n) <==> n <= i || Verdict(ctx, order, i).None?
    ensures ReasonsBefore(ctx, order, n, order[i]) == if n <= i then [] else ToSeq(Verdict(ctx, order, i))
    decreases n
  {
    assert forall k | 0 <= k < |order| :: order[k] in ctx.stack.nodes && (k != i ==> order[k] != order[i]);
    hide *;
    if n == 0 {
      NothingJudged(ctx, order, order[i]);
    } else {
      JudgedOnce(ctx, order, n - 1, i);
      JudgedOnce(ctx, order, n - 1, n - 1);
      OneJudged(ctx, order, n - 1, order[i]);
    }
  }

  ghost function Left(ctx: Context, order: seq<Phid>): set<Phid>
    requires ctx.Valid() && Known(ctx, order)
  {
    Pruned(ctx, order).landable.nodes
  }

  /** The judgement of each revision decides whether it is left in the end. */
  lemma Judged(ctx: Context, order: seq<Phid>, i: nat)
    requires ctx.Valid() && Enumerates(order, ctx.stack) && Known(ctx, order) && i < |order|
    ensures order[i] in Left(ctx, order) <==> Verdict(ctx, order, i).None?
    ensures order[i] in Left(ctx, order) <==> LandableGiven(ctx, AliveBefore(ctx, order, i), order[i])
    ensures Pruned(ctx, order).blocked[order[i]] == ToSeq(Verdict(ctx, order, i))
  {
    hide Pruned, RunCheck, FirstReason, LandableGiven;
    assert order[..|order|] == order;
    JudgedOnce(ctx, order, |order|, i);
    LandableGivenIff(ctx, AliveBefore(ctx, order, i), order[i]);
  }

  /** When it is the turn of `order[i]`, `order[j]` is there unless it was judged and removed. */
  lemma AliveBeforeIff(ctx: Context, order: seq<Phid>, i: nat, j: nat)
    requires ctx.Valid() && Enumerates(order, ctx.stack) && Known(ctx, order) && i <= |order| && j < |order|
    ensures order[j] in AliveBefore(ctx, order, i) <==> j >= i || order[j] in Left(ctx, order)
  {
    hide Pruned, RunCheck, FirstReason, LandableGiven;
    JudgedOnce(ctx, order, i, j);
    Judged(ctx, order, j);
  }

  /** Whatever the order: a survivor is open, passes its own checks, and has at most one
      open parent, which is in the same repository. */
  lemma AnyOrderSurvivors(ctx: Context, order: seq<Phid>, v: Phid)
    requires ctx.Valid() && Enumerates(order, ctx.stack) && Known(ctx, order)
    requires v in Left(ctx, order)
    ensures v in ctx.revisions && LandableGiven(ctx, ctx.stack.nodes, v)
  {
    assert v in order;
    var i :| 0 <= i < |order| && order[i] == v;
    Judged(ctx, order, i);
  }

  /** Whatever the order, the stack that is left is a forest of open revisions in which
      neighbours share their repository. */
  lemma AnyOrderForest(ctx: Context, order: seq<Phid>)
    requires ctx.Valid() && Enumerates(order, ctx.stack)
    ensures Known(ctx, order)
    ensures var left := Pruned(ctx, order).landable;
      && left.Closed()
      && (forall v | v in left.nodes :: !ctx.revisions[v].closed)
      && InDegreeAtMostOne(left)
      && (forall e | e in left.edges :: ctx.revisions[e.0].repo == ctx.revisions[e.1].repo)
      && (Acyclic(ctx.stack) ==> Acyclic(left))
  {
    hide Visit, PassesLocalChecks, Acyclic;
    var left := Pruned(ctx, order).landable;
    forall v | v in left.nodes
      ensures !ctx.revisions[v].closed
    {
      AnyOrderSurvivors(ctx, order, v);
    }
    forall e, f | e in left.edges && f in left.edges && e.1 == f.1
      ensures e == f && ctx.revisions[e.0].repo == ctx.revisions[e.1].repo
    {
      EdgesToSurvivor(ctx, order, e, f);
    }
    if Acyclic(ctx.stack) {
      SubgraphAcyclic(ctx.stack, left);
    }
  }

  lemma EdgesToSurvivor(ctx: Context, order: seq<Phid>, e: Edge, f: Edge)
    requires ctx.Valid() && Enumerates(order, ctx.stack) && Known(ctx, order)
    requires e in Pruned(ctx, order).landable.edges && f in Pruned(ctx, order).landable.edges && e.1 == f.1
    ensures e.0 in ctx.revisions && e.1 in ctx.revisions
    ensures e == f && ctx.revisions[e.0].repo == ctx.revisions[e.1].repo
  {
    hide Visit, PassesLocalChecks, FirstReason, RunCheck;
    assert e.0 in Left(ctx, order) && f.0 in Left(ctx, order) && e.1 in Left(ctx, order);
    AnyOrderSurvivors(ctx, order, e.0);
    AnyOrderSurvivors(ctx, order, f.0);
    AnyOrderSurvivors(ctx, order, e.1);
    var open := ctx.OpenParentsOf(e.1);
    assert e.0 in open && f.0 in open;
    SubsetSize({e.0, f.0}, open);
  }

  lemma {:induction false} SharedRepo(ctx: Context, g: Graph, p: seq<Phid>, i: nat)
    requires ctx.Valid() && g.nodes <= ctx.stack.nodes && IsWalk(g, p) && i < |p|
    requires forall e | e in g.edges :: e.0 in ctx.revisions && e.1 in ctx.revisions && ctx.revisions[e.0].repo == ctx.revisions[e.1].repo
    ensures ctx.revisions[p[i]].repo == ctx.revisions[p[0]].repo
    decreases i
  {
    if i > 0 {
      SharedRepo(ctx, g, p, i - 1);
      assert (p[i - 1], p[i]) in g.edges;
    }
  }

  /** Whatever the order: in the stack that is left every leaf ends exactly one landable path,
      and each landable path stays in one repository. */
  lemma AnyOrderLandablePaths(ctx: Context, order: seq<Phid>, leaf: Phid) returns (p: seq<Phid>)
    requires ctx.Valid() && Enumerates(order, ctx.stack) && Acyclic(ctx.stack)
    requires Known(ctx, order)
    requires Pruned(ctx, order).landable.IsLeaf(leaf)
    ensures var left := Pruned(ctx, order).landable;
      && IsRootToLeaf(left, p) && p[|p| - 1] == leaf
      && (forall q | IsRootToLeaf(left, q) && q[|q| - 1] == leaf :: q == p)
      && (forall i | 0 <= i < |p| :: p[i] in ctx.revisions && ctx.revisions[p[i]].repo == ctx.revisions[p[0]].repo)
  {
    hide Visit, InDegreeAtMostOne, Acyclic, IsRootToLeaf;
    AnyOrderForest(ctx, order);
    var left := Pruned(ctx, order).landable;
    p := ForestPath(left, leaf);
    assert IsWalk(left, p) by {
      RootToLeafIsWalk(left, p);
    }
    forall i | 0 <= i < |p|
      ensures p[i] in ctx.revisions && ctx.revisions[p[i]].repo == ctx.revisions[p[0]].repo
    {
      SharedRepo(ctx, left, p, i);
    }
  }

  lemma RootToLeafIsWalk(g: Graph, p: seq<Phid>)
    requires IsRootToLeaf(g, p)
    ensures IsWalk(g, p)
  {
  }

  // ---------------------------------------------------------------------------
  // Parents-first orders compute the landable set
  // ---------------------------------------------------------------------------

  lemma {:induction false} AtMostOneLandableSet(ctx: Context, a: set<Phid>, b: set<Phid>, order: seq<Phid>, i: nat)
    requires ctx.Valid() && ParentsFirst(order, ctx.stack) && i < |order|
    requires IsLandableSet(ctx, a) && IsLandableSet(ctx, b)
    ensures order[i] in a <==> order[i] in b
    decreases i
  {
    hide PassesLocalChecks, IsLandableSet;
    forall p | p in ctx.OpenParentsOf(order[i])
      ensures p in a <==> p in b
    {
      var j := ParentEarlier(ctx, order, i, p);
      AtMostOneLandableSet(ctx, a, b, order, j);
    }
    InLandableSet(ctx, a, order, i);
    InLandableSet(ctx, b, order, i);
  }

  lemma InLandableSet(ctx: Context, alive: set<Phid>, order: seq<Phid>, i: nat)
    requires ctx.Valid() && Enumerates(order, ctx.stack) && IsLandableSet(ctx, alive) && i < |order|
    ensures order[i] in ctx.revisions
    ensures order[i] in alive <==> LandableGiven(ctx, alive, order[i])
  {
    hide LandableGiven;
  }

  lemma ParentEarlier(ctx: Context, order: seq<Phid>, i: nat, p: Phid) returns (j: nat)
    requires ctx.Valid() && ParentsFirst(order, ctx.stack) && i < |order| && p in ctx.stack.Parents(order[i])
    ensures j < i && order[j] == p
  {
    assert (p, order[i]) in ctx.stack.edges;
    assert p in order;
    j :| 0 <= j < |order| && order[j] == p;
  }

  /** An acyclic stack has at most one landable set. */
  lemma LandableSetUnique(ctx: Context, a: set<Phid>, b: set<Phid>)
    requires ctx.Valid() && Acyclic(ctx.stack) && IsLandableSet(ctx, a) && IsLandableSet(ctx, b)
    ensures a == b
  {
    var order := ParentsFirstOrder(ctx.stack);
    forall v | v in ctx.stack.nodes
      ensures v in a <==> v in b
    {
      assert v in order;
      var i :| 0 <= i < |order| && order[i] == v;
      AtMostOneLandableSet(ctx, a, b, order, i);
    }
  }

  lemma ParentsJudgedBefore(ctx: Context, order: seq<Phid>, i: nat)
    requires ctx.Valid() && ParentsFirst(order, ctx.stack) && Known(ctx, order) && i < |order|
    ensures Verdict(ctx, order, i) == ReasonFor(ctx, Left(ctx, order), order[i])
  {
    hide Pruned, RunCheck, FirstReason;
    forall p | p in ctx.OpenParentsOf(order[i])
      ensures p in AliveBefore(ctx, order, i) <==> p in Left(ctx, order)
    {
      var j := ParentEarlier(ctx, order, i, p);
      AliveBeforeIff(ctx, order, i, j);
    }
    ReasonDependsOnOpenParents(ctx, OWN_CHECKS, AliveBefore(ctx, order, i), Left(ctx, order), order[i]);
  }

  /** Visiting parents first leaves exactly the landable set, and records exactly one reason
      for each removed revision: the one its final surroundings give. */
  lemma ParentsFirstResult(ctx: Context, order: seq<Phid>)
    requires ctx.Valid() && ParentsFirst(order, ctx.stack) && Known(ctx, order)
    ensures IsLandableSet(ctx, Left(ctx, order))
    ensures forall v | v in ctx.stack.nodes ::
      && Pruned(ctx, order).blocked[v] == ToSeq(ReasonFor(ctx, Left(ctx, order), v))
      && (v in Left(ctx, order) <==> Pruned(ctx, order).blocked[v] == [])
  {
    hide RunCheck, FirstReason, LandableGiven, Visit;
    forall v | v in ctx.stack.nodes
      ensures v in Left(ctx, order) <==> LandableGiven(ctx, Left(ctx, order), v)
      ensures Pruned(ctx, order).blocked[v] == ToSeq(ReasonFor(ctx, Left(ctx, order), v))
      ensures v in Left(ctx, order) <==> Pruned(ctx, order).blocked[v] == []
    {
      assert v in order;
      var i :| 0 <= i < |order| && order[i] == v;
      Judged(ctx, order, i);
      ParentsJudgedBefore(ctx, order, i);
      LandableGivenIff(ctx, Left(ctx, order), v);
    }
  }

  /** Two parents-first orders give the same landable stack and the same recorded reasons. */
  lemma OrderIndependent(ctx: Context, order: seq<Phid>, other: seq<Phid>)
    requires ctx.Valid() && ParentsFirst(order, ctx.stack) && ParentsFirst(other, ctx.stack)
    ensures Known(ctx, order)
    ensures Known(ctx, other)
    ensures Pruned(ctx, order).landable == Pruned(ctx, other).landable
    ensures Pruned(ctx, order).blocked == Pruned(ctx, other).blocked
  {
    hide Visit, ApplyAll, RunCheck, FirstReason;
    ParentsFirstResult(ctx, order);
    ParentsFirstResult(ctx, other);
    ParentsFirstIffAcyclic(ctx.stack);
    var r, s := Pruned(ctx, order), Pruned(ctx, other);
    LandableSetUnique(ctx, r.landable.nodes, s.landable.nodes);
  }

  // ---------------------------------------------------------------------------
  // Orders that are not parents-first
  // ---------------------------------------------------------------------------

  /** `v` is fine by itself and waits only for `p`, which may not land. */
  ghost predicate WaitsOnlyForBlocked(ctx: Context, alive: set<Phid>, p: Phid, v: Phid)
    requires ctx.Valid() && v in ctx.revisions
  {
    LandableGiven(ctx, alive + {p}, v) && p in ctx.OpenParentsOf(v) && p !in alive
  }

  ghost predicate BlockedSeenInTime(ctx: Context, order: seq<Phid>, alive: set<Phid>)
    requires ctx.Valid() && Known(ctx, order)
  {
    forall i, j | 0 <= i < |order| && 0 <= j < |order| && WaitsOnlyForBlocked(ctx, alive, order[i], order[j]) :: i < j
  }

  /** No order removes a revision that may land. */
  lemma {:induction false} NothingLandableRemoved(ctx: Context, order: seq<Phid>, alive: set<Phid>, topo: seq<Phid>, k: nat)
    requires ctx.Valid() && Enumerates(order, ctx.stack) && Known(ctx, order) && IsLandableSet(ctx, alive)
    requires ParentsFirst(topo, ctx.stack) && k < |topo| && topo[k] in alive
    ensures topo[k] in Left(ctx, order)
    decreases k
  {
    hide Pruned, RunCheck, FirstReason, PassesLocalChecks, IsLandableSet;
    InLandableSet(ctx, alive, topo, k);
    var i := PositionIn(ctx, order, topo[k]);
    Judged(ctx, order, i);
    forall p | p in ctx.OpenParentsOf(topo[k])
      ensures p in AliveBefore(ctx, order, i)
    {
      var k' := ParentEarlier(ctx, topo, k, p);
      NothingLandableRemoved(ctx, order, alive, topo, k');
      var j := PositionIn(ctx, order, p);
      AliveBeforeIff(ctx, order, i, j);
    }
  }

  lemma PositionIn(ctx: Context, order: seq<Phid>, v: Phid) returns (i: nat)
    requires ctx.Valid() && Enumerates(order, ctx.stack) && v in ctx.stack.nodes
    ensures i < |order| && order[i] == v
  {
    assert v in order;
    i :| 0 <= i < |order| && order[i] == v;
  }

  /** In a set that is landable a revision can wait only for its single open parent. */
  lemma WaitsForItsOnlyParent(ctx: Context, alive: set<Phid>, before: set<Phid>, p: Phid, v: Phid)
    requires ctx.Valid() && v in ctx.revisions && LandableGiven(ctx, before, v)
    requires p in ctx.OpenParentsOf(v) && p !in alive
    ensures p in before && WaitsOnlyForBlocked(ctx, alive, p, v)
  {
    forall q | q in ctx.OpenParentsOf(v)
      ensures q == p
    {
      SubsetSize({p, q}, ctx.OpenParentsOf(v));
    }
  }

  lemma {:induction false} NothingElseLeft(ctx: Context, order: seq<Phid>, alive: set<Phid>, topo: seq<Phid>, k: nat)
    requires ctx.Valid() && Enumerates(order, ctx.stack) && Known(ctx, order) && IsLandableSet(ctx, alive)
    requires ParentsFirst(topo, ctx.stack) && k < |topo| && topo[k] in Left(ctx, order)
    requires BlockedSeenInTime(ctx, order, alive)
    ensures topo[k] in alive
    decreases k
  {
    hide Pruned, RunCheck, FirstReason, PassesLocalChecks, IsLandableSet, BlockedSeenInTime;
    InLandableSet(ctx, alive, topo, k);
    var i := PositionIn(ctx, order, topo[k]);
    Judged(ctx, order, i);
    forall p | p in ctx.OpenParentsOf(topo[k])
      ensures p in alive
    {
      var k' := ParentEarlier(ctx, topo, k, p);
      var j := PositionIn(ctx, order, p);
      AliveBeforeIff(ctx, order, i, j);
      if p !in alive {
        WaitsForItsOnlyParent(ctx, alive, AliveBefore(ctx, order, i), p, topo[k]);
        SeenInTime(ctx, order, alive, j, i);
        NothingElseLeft(ctx, order, alive, topo, k');
      }
    }
  }

  lemma SeenInTime(ctx: Context, order: seq<Phid>, alive: set<Phid>, i: nat, j: nat)
    requires ctx.Valid() && Known(ctx, order) && BlockedSeenInTime(ctx, order, alive) && i < |order| && j < |order|
    ensures WaitsOnlyForBlocked(ctx, alive, order[i], order[j]) ==> i < j
  {
    hide WaitsOnlyForBlocked;
  }

  /** A revision that waits only for a blocked one, and is visited first, is left behind. */
  lemma SeenTooEarly(ctx: Context, order: seq<Phid>, alive: set<Phid>, i: nat, j: nat)
    requires ctx.Valid() && Enumerates(order, ctx.stack) && Known(ctx, order) && j <= i < |order|
    requires WaitsOnlyForBlocked(ctx, alive, order[i], order[j]) && alive <= Left(ctx, order)
    ensures order[j] in Left(ctx, order)
  {
    hide Pruned, RunCheck, FirstReason, PassesLocalChecks;
    Judged(ctx, order, j);
    forall q | q in ctx.OpenParentsOf(order[j])
      ensures q in AliveBefore(ctx, order, j)
    {
      assert q in order;
      var k :| 0 <= k < |order| && order[k] == q;
      AliveBeforeIff(ctx, order, j, k);
    }
  }

  /** For an arbitrary order over an acyclic stack: the loop leaves exactly the landable set if
      and only if each revision that waits only for a blocked parent is visited after it. */
  lemma AnyOrderExact(ctx: Context, order: seq<Phid>, alive: set<Phid>)
    requires ctx.Valid() && Acyclic(ctx.stack) && Enumerates(order, ctx.stack) && Known(ctx, order)
    requires IsLandableSet(ctx, alive)
    ensures Left(ctx, order) == alive <==> BlockedSeenInTime(ctx, order, alive)
  {
    hide Pruned, RunCheck, FirstReason, PassesLocalChecks, LandableGiven;
    var topo := ParentsFirstOrder(ctx.stack);
    forall v | v in ctx.stack.nodes
      ensures v in alive ==> v in Left(ctx, order)
      ensures BlockedSeenInTime(ctx, order, alive) && v in Left(ctx, order) ==> v in alive
    {
      var k := PositionIn(ctx, topo, v);
      if v in alive {
        NothingLandableRemoved(ctx, order, alive, topo, k);
      } else if BlockedSeenInTime(ctx, order, alive) && v in Left(ctx, order) {
        NothingElseLeft(ctx, order, alive, topo, k);
      }
    }
    assert alive <= Left(ctx, order);
    if !BlockedSeenInTime(ctx, order, alive) {
      var i, j :| 0 <= i < |order| && 0 <= j < |order| && j <= i && WaitsOnlyForBlocked(ctx, alive, order[i], order[j]);
      SeenTooEarly(ctx, order, alive, i, j);
      LandableSetLacks(ctx, alive, order[i], order[j]);
    }
  }

  lemma LandableSetLacks(ctx: Context, alive: set<Phid>, p: Phid, v: Phid)
    requires ctx.Valid() && IsLandableSet(ctx, alive) && v in ctx.revisions && WaitsOnlyForBlocked(ctx, alive, p, v)
    ensures v !in alive
  {
    hide PassesLocalChecks;
  }

  /** A child whose only fault is a parent that its author still wants to change. */
  function BlockedParentExample(parent: Phid, child: Phid, repo: Phid): Context {
    var ok := Revision(1, Some(repo), false, 1, map[], []);
    Context(
      map[parent := ok.(local := map[AuthorPlannedChanges := "planned changes"]), child := ok],
      [child, parent],
      Graph({parent, child}, {(parent, child)}),
      map[repo := Repo("", "", "", "")],
      false,
      None)
  }

  lemma BlockedParentExampleFacts(parent: Phid, child: Phid, repo: Phid)
    requires parent != child
    ensures var ctx := BlockedParentExample(parent, child, repo);
      && ctx.Valid() && ParentsFirst([parent, child], ctx.stack)
      && !LandableGiven(ctx, {}, parent) && WaitsOnlyForBlocked(ctx, {}, parent, child)
  {
    var ctx := BlockedParentExample(parent, child, repo);
    assert (parent, child) in ctx.stack.edges;
    assert ctx.stack.Parents(child) == {parent};
    assert ctx.OpenParentsOf(child) == {parent};
    assert OWN_CHECKS[5] == AuthorPlannedChanges;
    assert !PassesLocalChecks(ctx, parent) by {
      assert RunCheck(ctx, AuthorPlannedChanges, {}, parent).Some?;
    }
    assert PassesLocalChecks(ctx, child);
    hide RunCheck, PassesLocalChecks;
    assert {} + {parent} == {parent};
  }

  /** The loop need not be given parents first, and then its result can be too large: visiting
      the child before its blocked parent leaves the child landable. */
  lemma ChildBeforeBlockedParent(parent: Phid, child: Phid, repo: Phid)
    requires parent != child
    ensures var ctx := BlockedParentExample(parent, child, repo);
      ctx.Valid() && Acyclic(ctx.stack) && child in Left(ctx, ctx.order) && Left(ctx, [parent, child]) == {}
  {
    hide Visit, RunCheck, FirstReason, PassesLocalChecks, WaitsOnlyForBlocked;
    var ctx := BlockedParentExample(parent, child, repo);
    BlockedParentExampleFacts(parent, child, repo);
    assert IsLandableSet(ctx, {}) by {
      assert parent in ctx.OpenParentsOf(child) by {
        assert (parent, child) in ctx.stack.edges;
      }
    }
    ParentsFirstIffAcyclic(ctx.stack);
    SeenTooEarly(ctx, ctx.order, {}, 1, 0);
    ParentsFirstResult(ctx, [parent, child]);
    LandableSetUnique(ctx, Left(ctx, [parent, child]), {});
  }

  // ---------------------------------------------------------------------------
  // What the checks ask of a single revision
  // ---------------------------------------------------------------------------

  /** The checks that look at nothing but the revision and its diff. */
  const LOCAL_CHECKS: set<Check> :=
    {AuthorPlannedChanges, DiffAuthorIsKnown, UpliftApproval, RevisionDataClassification, PreventSymlinks, TryTaskConfig}

  /** The request asks for the latest diff of the revision: the last pair that names it does. */
  predicate AsksForLatest(path: seq<(Phid, int)>, v: Phid, latest: int) {
    exists k | 0 <= k < |path| :: path[k] == (v, latest) && forall j | k < j < |path| :: path[j].0 != v
  }

  /** The repository of the revision is one that Lando lands to. */
  predicate HasLandableRepo(ctx: Context, v: Phid)
    requires v in ctx.revisions
  {
    ctx.revisions[v].repo.Some? && ctx.revisions[v].repo.value in ctx.landableRepos
  }

  function RepoOf(ctx: Context, v: Phid): Repo
    requires v in ctx.revisions && HasLandableRepo(ctx, v)
  {
    ctx.landableRepos[ctx.revisions[v].repo.value]
  }

  // ---------------------------------------------------------------------------
  // Single checks
  // ---------------------------------------------------------------------------

  lemma {:induction false} LatestIff(path: seq<(Phid, int)>, v: Phid, latest: int)
    ensures RequestedDiff(path, v) == Some(latest) <==> AsksForLatest(path, v, latest)
    decreases |path|
  {
    if path != [] {
      var n := |path| - 1;
      LatestIff(path[..n], v, latest);
      if path[n].0 == v {
        assert AsksForLatest(path, v, latest) <==> path[n].1 == latest;
      } else {
        if AsksForLatest(path[..n], v, latest) {
          var k :| 0 <= k < n && path[..n][k] == (v, latest) && forall j | k < j < n :: path[..n][j].0 != v;
          assert forall j | k < j < |path| :: path[j].0 != v by {
            assert forall j | k < j < n :: path[j] == path[..n][j];
          }
        }
        if AsksForLatest(path, v, latest) {
          var k :| 0 <= k < |path| && path[k] == (v, latest) && forall j | k < j < |path| :: path[j].0 != v;
          assert path[..n][k] == (v, latest) && forall j | k < j < n :: path[..n][j].0 != v;
        }
      }
    }
  }

  lemma InOwnChecks(c: Check)
    ensures c in OWN_CHECKS && c != OpenParents && c != ClosedRevisions <==>
      c in LOCAL_CHECKS || c in {UserScmLevel, UnsupportedRepo, LatestDiffs}
  {
    assert OWN_CHECKS == [UserScmLevel, UnsupportedRepo, OpenParents, ClosedRevisions, LatestDiffs, AuthorPlannedChanges, DiffAuthorIsKnown,
      UpliftApproval, RevisionDataClassification, PreventSymlinks, TryTaskConfig];
    assert OWN_CHECKS[0] == UserScmLevel && OWN_CHECKS[1] == UnsupportedRepo && OWN_CHECKS[4] == LatestDiffs
      && OWN_CHECKS[5] == AuthorPlannedChanges && OWN_CHECKS[6] == DiffAuthorIsKnown && OWN_CHECKS[7] == UpliftApproval
      && OWN_CHECKS[8] == RevisionDataClassification && OWN_CHECKS[9] == PreventSymlinks && OWN_CHECKS[10] == TryTaskConfig;
  }

  lemma RequestChecksPass(ctx: Context, v: Phid)
    requires ctx.Valid() && v in ctx.revisions
    ensures RunCheck(ctx, UserScmLevel, {}, v).None? && RunCheck(ctx, UnsupportedRepo, {}, v).None? && RunCheck(ctx, LatestDiffs, {}, v).None? <==>
      && HasLandableRepo(ctx, v)
      && (ctx.request.Some? ==>
        && RepoOf(ctx, v).activeGroup in ctx.request.value.groups
        && AsksForLatest(ctx.request.value.path, v, ctx.revisions[v].latestDiff))
  {
    if ctx.request.Some? {
      LatestIff(ctx.request.value.path, v, ctx.revisions[v].latestDiff);
    }
    hide AsksForLatest, RequestedDiff;
  }

  lemma LocalCheckPasses(ctx: Context, c: Check, v: Phid)
    requires ctx.Valid() && v in ctx.revisions && c in LOCAL_CHECKS
    ensures RunCheck(ctx, c, {}, v).None? <==> c !in ctx.revisions[v].local
  {
  }

  /** What the checks that do not look at the stack ask of a revision. */
  lemma PassesLocalChecksIff(ctx: Context, v: Phid)
    requires ctx.Valid() && v in ctx.revisions
    ensures PassesLocalChecks(ctx, v) <==>
      && HasLandableRepo(ctx, v)
      && (ctx.request.Some? ==>
        && RepoOf(ctx, v).activeGroup in ctx.request.value.groups
        && AsksForLatest(ctx.request.value.path, v, ctx.revisions[v].latestDiff))
      && (forall c | c in LOCAL_CHECKS :: c !in ctx.revisions[v].local)
  {
    hide RunCheck, AsksForLatest, HasLandableRepo;
    RequestChecksPass(ctx, v);
    forall c
      ensures c in OWN_CHECKS && c != OpenParents && c != ClosedRevisions <==>
        c in LOCAL_CHECKS || c in {UserScmLevel, UnsupportedRepo, LatestDiffs}
      ensures c in LOCAL_CHECKS ==> (RunCheck(ctx, c, {}, v).None? <==> c !in ctx.revisions[v].local)
    {
      InOwnChecks(c);
      if c in LOCAL_CHECKS {
        LocalCheckPasses(ctx, c, v);
      }
    }
  }

  // ---------------------------------------------------------------------------
  // Landing requests
  // ---------------------------------------------------------------------------

  lemma BlockersOfOne(ctx: Context, order: seq<Phid>, n: nat)
    requires ctx.Valid() && Enumerates(order, ctx.stack) && Known(ctx, order) && n < |order|
    ensures var before, after := Pruned(ctx, order[..n]).blockers, Pruned(ctx, order[..n + 1]).blockers;
      && before <= after
      && (after == before <==> order[n] in Left(ctx, order) || order[n] !in ctx.BlockingPhids())
  {
    hide Pruned, RunCheck, FirstReason, LandableGiven;
    JudgedOnce(ctx, order, n, n);
    PruneOne(ctx, order, n);
    Judged(ctx, order, n);
  }

  lemma {:induction false} BlockersUpTo(ctx: Context, order: seq<Phid>, n: nat)
    requires ctx.Valid() && Enumerates(order, ctx.stack) && Known(ctx, order) && n <= |order|
    ensures Pruned(ctx, order[..n]).blockers == [] <==>
      forall i | 0 <= i < n && order[i] in ctx.BlockingPhids() :: order[i] in Left(ctx, order)
    decreases n
  {
    hide Visit, Left;
    if n == 0 {
      assert order[..0] == [];
      NothingVisited(ctx);
    } else {
      hide Pruned;
      BlockersUpTo(ctx, order, n - 1);
      BlockersOfOne(ctx, order, n - 1);
    }
  }

  lemma NothingVisited(ctx: Context)
    requires ctx.Valid()
    ensures Pruned(ctx, []).blockers == []
  {
  }

  /** Whatever the order: the revision checks report no blocker exactly when every revision
      that takes part in the assessment is left in the landable stack. */
  lemma NoRevisionBlockersIff(ctx: Context, order: seq<Phid>)
    requires ctx.Valid() && Enumerates(order, ctx.stack) && Known(ctx, order)
    ensures Pruned(ctx, order).blockers == [] <==> ctx.BlockingPhids() <= Left(ctx, order)
  {
    hide Pruned;
    BlockersUpTo(ctx, order, |order|);
    assert order[..|order|] == order;
    forall v | v in ctx.BlockingPhids()
      ensures exists i :: 0 <= i < |order| && order[i] == v
    {
      assert v in order;
    }
  }

  lemma {:induction false} RequestedDiffInPath(path: seq<(Phid, int)>, v: Phid)
    requires RequestedDiff(path, v).Some?
    ensures exists i :: 0 <= i < |path| && path[i].0 == v
    decreases |path|
  {
    if path[|path| - 1].0 != v {
      RequestedDiffInPath(path[..|path| - 1], v);
      var i :| 0 <= i < |path| - 1 && path[..|path| - 1][i].0 == v;
      assert path[i].0 == v;
    }
  }

  /** A revision that is left passed the check on its repository and on its requested diff. */
  lemma SurvivorOfRequest(ctx: Context, alive: set<Phid>, v: Phid)
    requires ctx.Valid() && ctx.request.Some? && v in ctx.revisions && LandableGiven(ctx, alive, v)
    ensures v in ctx.RequestedPath()
    ensures ctx.revisions[v].repo.Some? && ctx.revisions[v].repo.value in ctx.landableRepos
  {
    assert OWN_CHECKS[1] == UnsupportedRepo && OWN_CHECKS[4] == LatestDiffs;
    assert RunCheck(ctx, UnsupportedRepo, {}, v).None? && RunCheck(ctx, LatestDiffs, {}, v).None?;
    RequestedDiffInPath(ctx.request.value.path, v);
    var i :| 0 <= i < |ctx.request.value.path| && ctx.request.value.path[i].0 == v;
    assert ctx.RequestedPath()[i] == v;
  }

  /** A landable path: the first revision waits for nothing, every other one only for the
      revision before it, and all of them are in one repository. */
  ghost predicate LandsInOrder(ctx: Context, path: seq<Phid>)
    requires ctx.Valid() && forall i | 0 <= i < |path| :: path[i] in ctx.revisions
  {
    && path != []
    && ctx.OpenParentsOf(path[0]) == {}
    && (forall i | 0 < i < |path| :: ctx.OpenParentsOf(path[i]) == {path[i - 1]})
    && (forall i | 0 <= i < |path| :: ctx.revisions[path[i]].repo == ctx.revisions[path[0]].repo)
    && (forall i | 0 <= i < |path| :: !ctx.revisions[path[i]].closed)
  }

  lemma OnlyOpenParent(ctx: Context, order: seq<Phid>, p: Phid, v: Phid)
    requires ctx.Valid() && Enumerates(order, ctx.stack) && Known(ctx, order)
    requires (p, v) in Pruned(ctx, order).landable.edges
    ensures v in ctx.revisions && ctx.OpenParentsOf(v) == {p}
  {
    hide Visit, FirstReason, RunCheck, PassesLocalChecks;
    assert p in Left(ctx, order) && v in Left(ctx, order);
    AnyOrderSurvivors(ctx, order, p);
    AnyOrderSurvivors(ctx, order, v);
    forall q | q in ctx.OpenParentsOf(v)
      ensures q == p
    {
      SubsetSize({p, q}, ctx.OpenParentsOf(v));
    }
  }

  lemma PathLandsInOrderAt(ctx: Context, order: seq<Phid>, full: seq<Phid>, i: nat)
    requires ctx.Valid() && Enumerates(order, ctx.stack) && Known(ctx, order)
    requires IsWalk(Pruned(ctx, order).landable, full) && i < |full|
    ensures full[0] in ctx.revisions && full[i] in ctx.revisions
    ensures !ctx.revisions[full[i]].closed && ctx.revisions[full[i]].repo == ctx.revisions[full[0]].repo
    ensures i > 0 ==> ctx.OpenParentsOf(full[i]) == {full[i - 1]}
  {
    hide Visit, FirstReason, RunCheck, PassesLocalChecks, Acyclic, InDegreeAtMostOne;
    var left := Pruned(ctx, order).landable;
    AnyOrderForest(ctx, order);
    assert full[0] in left.nodes && full[i] in left.nodes;
    SharedRepo(ctx, left, full, i);
    if i > 0 {
      assert (full[i - 1], full[i]) in left.edges;
      OnlyOpenParent(ctx, order, full[i - 1], full[i]);
    }
  }

  lemma NoBlockersIff(ctx: Context)
    requires ctx.Valid()
    ensures AssessmentBlockers(ctx) == [] <==>
      && CheckLandingPathValid(ctx, ctx.stack).None? && CheckAlreadyRequested(ctx).None?
      && CheckNoEmail(ctx).None? && CheckSingleLandingRepo(ctx).None?
      && Pruned(ctx, ctx.order).blockers == []
      && CheckLandingPathLandable(ctx, Pruned(ctx, ctx.order).landable).None?
  {
    hide Pruned, CheckSingleLandingRepo, CheckLandingPathValid, CheckLandingPathLandable, CheckAlreadyRequested, CheckNoEmail;
  }

  lemma SurvivingWalk(ctx: Context, order: seq<Phid>, path: seq<Phid>)
    requires ctx.Valid() && Enumerates(order, ctx.stack) && Known(ctx, order)
    requires IsWalk(ctx.stack, path) && Elements(path) <= Left(ctx, order)
    ensures IsWalk(Pruned(ctx, order).landable, path)
  {
    hide Visit;
    assert forall v | v in path :: v in Elements(path);
  }

  /** A walk through all nodes of an acyclic graph is a root-to-leaf path. */
  lemma CoveringWalk(g: Graph, path: seq<Phid>)
    requires g.Closed() && Acyclic(g) && IsSimplePath(g, path) && forall v | v in g.nodes :: v in path
    ensures IsRootToLeaf(g, path)
  {
    hide Acyclic;
    var rooted := ExtendToRoot(g, path);
    var full := ExtendToLeaf(g, rooted);
    AcyclicWalkIsSimple(g, full);
    NoLongerThan(full, path);
    assert rooted == path == full;
  }

  /** A requested path of revisions that are all left is a landable path, in one repository. */
  lemma SurvivingPathLandable(ctx: Context)
    requires ctx.Valid() && ctx.request.Some? && Acyclic(ctx.stack) && Known(ctx, ctx.order)
    requires IsSimplePath(ctx.stack, ctx.RequestedPath()) && Elements(ctx.RequestedPath()) <= Left(ctx, ctx.order)
    ensures CheckLandingPathLandable(ctx, Pruned(ctx, ctx.order).landable).None?
    ensures CheckSingleLandingRepo(ctx).None?
  {
    hide Visit, FirstReason, RunCheck, PassesLocalChecks, LandableGiven, Acyclic, InDegreeAtMostOne, IsRootToLeaf, RepoOfPath;
    var path, left := ctx.RequestedPath(), Pruned(ctx, ctx.order).landable;
    AnyOrderForest(ctx, ctx.order);
    SurvivingWalk(ctx, ctx.order, path);
    OnlyRequestedLeft(ctx);
    CoveringWalk(left, path);
    assert IsPrefixOfLandablePath(left, path, path);
    assert path[0] in Elements(path);
    SurvivorOfRequest(ctx, ctx.stack.nodes, path[0]);
    forall i | 0 <= i < |path|
      ensures path[i] in ctx.revisions && ctx.revisions[path[i]].repo == ctx.revisions[path[0]].repo
    {
      PathLandsInOrderAt(ctx, ctx.order, path, i);
    }
    SettledPath(ctx, path);
  }

  lemma OnlyRequestedLeft(ctx: Context)
    requires ctx.Valid() && ctx.request.Some? && Known(ctx, ctx.order)
    ensures forall v | v in Left(ctx, ctx.order) :: v in ctx.RequestedPath() && LandableGiven(ctx, ctx.stack.nodes, v)
  {
    hide Pruned, LandableGiven;
    forall v | v in Left(ctx, ctx.order)
      ensures v in ctx.RequestedPath() && LandableGiven(ctx, ctx.stack.nodes, v)
    {
      AnyOrderSurvivors(ctx, ctx.order, v);
      SurvivorOfRequest(ctx, ctx.stack.nodes, v);
    }
  }

  /** Whatever the order of an acyclic stack: a landing request is unblocked exactly when no job
      holds the stack, the user has an email address, and the request is a simple path of the stack
      all of whose revisions are left. That the path is landable to its end and stays in one
      repository follows. */
  lemma RequestUnblockedIff(ctx: Context)
    requires ctx.Valid() && ctx.request.Some? && Acyclic(ctx.stack)
    ensures Known(ctx, ctx.order)
    ensures AssessmentBlockers(ctx) == [] <==>
      && !ctx.alreadyRequested && ctx.request.value.hasEmail
      && IsSimplePath(ctx.stack, ctx.RequestedPath())
      && Elements(ctx.RequestedPath()) <= Left(ctx, ctx.order)
    ensures AssessmentBlockers(ctx) == [] ==> forall v | v in Elements(ctx.RequestedPath()) ::
      v in ctx.revisions && HasLandableRepo(ctx, v) && RepoOf(ctx, v).activeGroup in ctx.request.value.groups
  {
    NoBlockersIff(ctx);
    NoRevisionBlockersIff(ctx, ctx.order);
    hide Pruned, IsSimplePath, CheckSingleLandingRepo, CheckLandingPathLandable, AssessmentBlockers, Left, Acyclic;
    assert ctx.BlockingPhids() == Elements(ctx.RequestedPath()) by {
      RequestedElements(ctx);
    }
    if IsSimplePath(ctx.stack, ctx.RequestedPath()) && Elements(ctx.RequestedPath()) <= Left(ctx, ctx.order) {
      SurvivingPathLandable(ctx);
    }
    hide HasLandableRepo;
    forall v | v in Left(ctx, ctx.order)
      ensures v in ctx.revisions && HasLandableRepo(ctx, v) && RepoOf(ctx, v).activeGroup in ctx.request.value.groups
    {
      SurvivorPasses(ctx, v);
    }
  }

  lemma RequestedElements(ctx: Context)
    requires ctx.Valid() && ctx.request.Some?
    ensures ctx.BlockingPhids() == Elements(ctx.RequestedPath())
  {
    var path := ctx.RequestedPath();
    forall v
      ensures v in ctx.BlockingPhids() <==> v in Elements(path)
    {
      if v in ctx.BlockingPhids() {
        var i :| 0 <= i < |ctx.request.value.path| && ctx.request.value.path[i].0 == v;
        assert path[i] == v;
      }
    }
  }

  /** Everything that is left was requested, so a requested prefix of a landable path is all of it. */
  lemma RequestedIsWholePath(ctx: Context, full: seq<Phid>)
    requires ctx.Valid() && ctx.request.Some? && Enumerates(ctx.order, ctx.stack) && Known(ctx, ctx.order)
    requires IsPrefixOfLandablePath(Pruned(ctx, ctx.order).landable, ctx.RequestedPath(), full)
    ensures ctx.RequestedPath() == full && Elements(full) == Left(ctx, ctx.order)
  {
    hide Visit, FirstReason, RunCheck, PassesLocalChecks;
    OnlyRequestedLeft(ctx);
    CoveringPrefix(ctx.RequestedPath(), full);
  }

  /** What the first revision of the request waits for has been looked at before it. */
  ghost predicate OpenParentsSeenBefore(ctx: Context, v: Phid)
    requires ctx.Valid()
  {
    forall i, j | 0 <= i < |ctx.order| && 0 <= j < |ctx.order| && ctx.order[i] in ctx.OpenParentsOf(v) && ctx.order[j] == v :: i < j
  }

  /** A root of what is left can only wait for revisions that were looked at after it. */
  lemma RootWaitsOnlyForLater(ctx: Context, v: Phid)
    requires ctx.Valid() && Known(ctx, ctx.order) && Pruned(ctx, ctx.order).landable.IsRoot(v)
    ensures v in ctx.revisions && (OpenParentsSeenBefore(ctx, v) <==> ctx.OpenParentsOf(v) == {})
  {
    hide Visit, FirstReason, RunCheck, PassesLocalChecks;
    var order, left := ctx.order, Pruned(ctx, ctx.order).landable;
    var j := PositionIn(ctx, order, v);
    Judged(ctx, order, j);
    if p :| p in ctx.OpenParentsOf(v) {
      var i := PositionIn(ctx, order, p);
      AliveBeforeIff(ctx, order, j, i);
      assert (p, v) in ctx.stack.edges;
      assert p in left.nodes ==> (p, v) in left.edges;
      assert p in left.nodes ==> p in left.Parents(v);
    }
  }

  lemma PathLandsInOrderIff(ctx: Context, path: seq<Phid>)
    requires ctx.Valid() && Known(ctx, ctx.order) && IsRootToLeaf(Pruned(ctx, ctx.order).landable, path)
    ensures forall i | 0 <= i < |path| :: path[i] in ctx.revisions
    ensures LandsInOrder(ctx, path) <==> OpenParentsSeenBefore(ctx, path[0])
  {
    hide Pruned, OpenParentsSeenBefore;
    RootWaitsOnlyForLater(ctx, path[0]);
    forall i | 0 <= i < |path|
      ensures path[i] in ctx.revisions && !ctx.revisions[path[i]].closed
      ensures ctx.revisions[path[i]].repo == ctx.revisions[path[0]].repo
      ensures i > 0 ==> ctx.OpenParentsOf(path[i]) == {path[i - 1]}
    {
      PathLandsInOrderAt(ctx, ctx.order, path, i);
    }
  }

  /** Whatever the order: a landing request that ends without blockers asks for a non-empty simple
      path of the stack, which consists of exactly the revisions that are left and is a landable
      path from root to leaf, and its repository is set. It lands in order, waiting for nothing, if
      and only if the open parents of its first revision were looked at before it. */
  lemma UnblockedRequest(ctx: Context)
    requires ctx.Valid() && ctx.request.Some? && AssessmentBlockers(ctx) == []
    ensures Known(ctx, ctx.order)
    ensures var path := ctx.RequestedPath();
      && IsSimplePath(ctx.stack, path)
      && (forall i | 0 <= i < |path| :: path[i] in ctx.revisions)
      && Elements(path) == Left(ctx, ctx.order)
      && IsRootToLeaf(Pruned(ctx, ctx.order).landable, path)
      && ctx.revisions[path[0]].repo.Some?
      && ctx.revisions[path[0]].repo.value in ctx.landableRepos
      && LandingRepoOf(ctx) == Some(ctx.landableRepos[ctx.revisions[path[0]].repo.value])
      && !ctx.alreadyRequested
      && (forall i | 0 <= i < |path| ::
        && ctx.revisions[path[i]].repo == ctx.revisions[path[0]].repo
        && HasLandableRepo(ctx, path[i])
        && RepoOf(ctx, path[i]).activeGroup in ctx.request.value.groups
        && AsksForLatest(ctx.request.value.path, path[i], ctx.revisions[path[i]].latestDiff)
        && (forall c | c in LOCAL_CHECKS :: c !in ctx.revisions[path[i]].local))
      && (LandsInOrder(ctx, path) <==> OpenParentsSeenBefore(ctx, path[0]))
      && (ParentsFirst(ctx.order, ctx.stack) ==> LandsInOrder(ctx, path))
  {
    hide Pruned, FirstReason, RunCheck, PassesLocalChecks, LandableGiven, CheckSingleLandingRepo, AssessmentBlockers, IsSimplePath,
         LandsInOrder, OpenParentsSeenBefore;
    NoBlockersIff(ctx);
    var path, left := ctx.RequestedPath(), Pruned(ctx, ctx.order).landable;
    var full :| IsPrefixOfLandablePath(left, path, full);
    RequestedIsWholePath(ctx, full);
    PathLandsInOrderIff(ctx, path);
    RootToLeafIsWalk(left, path);
    AnyOrderSurvivors(ctx, ctx.order, path[0]);
    SurvivorOfRequest(ctx, ctx.stack.nodes, path[0]);
    forall i | 0 <= i < |path|
      ensures ctx.revisions[path[i]].repo == ctx.revisions[path[0]].repo
    {
      PathLandsInOrderAt(ctx, ctx.order, path, i);
    }
    SettledPath(ctx, path);
    hide HasLandableRepo, AsksForLatest, IsRootToLeaf, IsPrefixOfLandablePath, IsWalk;
    forall i | 0 <= i < |path|
      ensures HasLandableRepo(ctx, path[i]) && RepoOf(ctx, path[i]).activeGroup in ctx.request.value.groups
      ensures AsksForLatest(ctx.request.value.path, path[i], ctx.revisions[path[i]].latestDiff)
      ensures forall c | c in LOCAL_CHECKS :: c !in ctx.revisions[path[i]].local
    {
      assert path[i] in Elements(path);
      SurvivorPasses(ctx, path[i]);
    }
    if ParentsFirst(ctx.order, ctx.stack) {
      SeenParentsFirst(ctx, path[0]);
    }
  }

  /** What a revision that is left has passed. */
  lemma SurvivorPasses(ctx: Context, v: Phid)
    requires ctx.Valid() && ctx.request.Some? && Known(ctx, ctx.order) && v in Left(ctx, ctx.order)
    ensures v in ctx.revisions && HasLandableRepo(ctx, v) && RepoOf(ctx, v).activeGroup in ctx.request.value.groups
    ensures AsksForLatest(ctx.request.value.path, v, ctx.revisions[v].latestDiff)
    ensures forall c | c in LOCAL_CHECKS :: c !in ctx.revisions[v].local
  {
    AnyOrderSurvivors(ctx, ctx.order, v);
    hide AsksForLatest, PassesLocalChecks;
    PassesLocalChecksIff(ctx, v);
  }

  lemma SeenParentsFirst(ctx: Context, v: Phid)
    requires ctx.Valid() && ParentsFirst(ctx.order, ctx.stack)
    ensures OpenParentsSeenBefore(ctx, v)
  {
    forall i, j | 0 <= i < |ctx.order| && 0 <= j < |ctx.order| && ctx.order[i] in ctx.OpenParentsOf(v) && ctx.order[j] == v
      ensures i < j
    {
      assert (ctx.order[i], ctx.order[j]) in ctx.stack.edges;
    }
  }

  /** A child that is listed before its open parent and requested without it. */
  function OrphanRequestExample(parent: Phid, child: Phid, repo: Phid): Context {
    var ok := Revision(1, Some(repo), false, 7, map[], []);
    Context(
      map[parent := ok, child := ok],
      [child, parent],
      Graph({parent, child}, {(parent, child)}),
      map[repo := Repo("", "active", "", "")],
      false,
      Some(LandingRequest({"active"}, true, [(child, 7)])))
  }

  lemma OrphanLeft(parent: Phid, child: Phid, repo: Phid)
    requires parent != child
    ensures var ctx := OrphanRequestExample(parent, child, repo);
      && ctx.Valid() && Acyclic(ctx.stack) && Known(ctx, ctx.order)
      && child in Left(ctx, ctx.order) && parent in ctx.OpenParentsOf(child)
  {
    hide Visit, RunCheck, FirstReason, LandableGiven, PassesLocalChecks;
    var ctx := OrphanRequestExample(parent, child, repo);
    assert (parent, child) in ctx.stack.edges;
    assert ctx.OpenParentsOf(child) == {parent};
    assert ParentsFirst([parent, child], ctx.stack);
    ParentsFirstIffAcyclic(ctx.stack);
    OrphanPasses(parent, child, repo);
    assert AliveBefore(ctx, ctx.order, 0) == ctx.stack.nodes by {
      assert ctx.order[..0] == [];
      NothingLeftOut(ctx);
    }
    Judged(ctx, ctx.order, 0);
  }

  lemma OrphanPasses(parent: Phid, child: Phid, repo: Phid)
    requires parent != child
    ensures var ctx := OrphanRequestExample(parent, child, repo);
      ctx.Valid() && LandableGiven(ctx, ctx.stack.nodes, child)
  {
    var ctx := OrphanRequestExample(parent, child, repo);
    assert (parent, child) in ctx.stack.edges;
    assert ctx.OpenParentsOf(child) == {parent};
    assert RequestedDiff(ctx.request.value.path, child) == Some(7);
    assert PassesLocalChecks(ctx, child);
  }

  lemma NothingLeftOut(ctx: Context)
    requires ctx.Valid()
    ensures Pruned(ctx, []).landable == ctx.stack
  {
  }

  /** With such an order a request can be unblocked although its revision waits for an open parent
      that does not land with it. */
  lemma OrphanRequestUnblocked(parent: Phid, child: Phid, repo: Phid)
    requires parent != child
    ensures var ctx := OrphanRequestExample(parent, child, repo);
      && ctx.Valid() && Acyclic(ctx.stack) && AssessmentBlockers(ctx) == []
      && parent in ctx.OpenParentsOf(child) && ctx.RequestedPath() == [child]
  {
    hide Pruned, RunCheck, FirstReason, LandableGiven, PassesLocalChecks, AssessmentBlockers, Acyclic;
    var ctx := OrphanRequestExample(parent, child, repo);
    OrphanLeft(parent, child, repo);
    assert ctx.RequestedPath() == [child] && Elements([child]) == {child};
    RequestUnblockedIff(ctx);
  }

  /** One open revision, requested by a member of the active group of its repository. */
  function SingleRequestExample(v: Phid, repo: Phid): Context {
    Context(
      map[v := Revision(1, Some(repo), false, 7, map[], [])],
      [v],
      Graph({v}, {}),
      map[repo := Repo("", "active", "", "")],
      false,
      Some(LandingRequest({"active"}, true, [(v, 7)])))
  }

  lemma SingleRequestLandable(v: Phid, repo: Phid)
    ensures var ctx := SingleRequestExample(v, repo);
      ctx.Valid() && ParentsFirst(ctx.order, ctx.stack) && ctx.OpenParentsOf(v) == {} && LandableGiven(ctx, {v}, v)
  {
    var ctx := SingleRequestExample(v, repo);
    assert ctx.OpenParentsOf(v) == {};
    var path := ctx.request.value.path;
    assert RequestedDiff(path, v) == Some(7);
    assert PassesLocalChecks(ctx, v);
  }

  /** Such a request has no blocker, so what is proved of requests without blockers is not empty. */
  lemma SingleRequestUnblocked(v: Phid, repo: Phid)
    ensures var ctx := SingleRequestExample(v, repo);
      ctx.Valid() && ParentsFirst(ctx.order, ctx.stack) && AssessmentBlockers(ctx) == []
  {
    hide Visit, RunCheck, FirstReason, PassesLocalChecks, LandableGiven, AssessmentBlockers;
    var ctx := SingleRequestExample(v, repo);
    SingleRequestLandable(v, repo);
    assert IsLandableSet(ctx, {v});
    ParentsFirstIffAcyclic(ctx.stack);
    ParentsFirstResult(ctx, ctx.order);
    LandableSetUnique(ctx, Left(ctx, ctx.order), {v});
    var path := ctx.RequestedPath();
    assert path == [v] && Elements(path) == {v};
    RequestUnblockedIff(ctx);
  }

  lemma SettledPath(ctx: Context, path: seq<Phid>)
    requires ctx.Valid() && ctx.request.Some? && path == ctx.RequestedPath() && path != []
    requires ctx.revisions[path[0]].repo.Some?
    requires forall i | 0 <= i < |path| :: ctx.revisions[path[i]].repo == ctx.revisions[path[0]].repo
    ensures RepoOfPath(PathRepos(ctx)) == Single(ctx.revisions[path[0]].repo.value)
  {
    var repos := PathRepos(ctx);
    assert forall i | 0 <= i < |path| :: repos[i] == ctx.revisions[path[i]].repo;
    assert SettledAt(repos, 0);
  }
}
