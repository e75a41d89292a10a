/** Revision stacks as directed graphs, and the landable paths through them. */
module Stacks {

  import opened Sequences

  /** A Phabricator object identifier. */
  datatype Phid = Phid(raw: string)

  /** Edges point from a parent revision to the child that depends on it. */
  type Edge = (Phid, Phid)

  datatype Graph = Graph(nodes: set<Phid>, edges: set<Edge>) {

    /** Every edge joins two nodes of the graph. */
    predicate Closed() {
      forall e | e in edges :: e.0 in nodes && e.1 in nodes
    }

    function Parents(v: Phid): set<Phid> {
      set e | e in edges && e.1 == v :: e.0
    }

    function Children(v: Phid): set<Phid> {
      set e | e in edges && e.0 == v :: e.1
    }

    predicate IsRoot(v: Phid) {
      v in nodes && Parents(v) == {}
    }

    predicate IsLeaf(v: Phid) {
      v in nodes && Children(v) == {}
    }

    /** Removing a node also removes the edges at it. */
    function Remove(v: Phid): Graph {
      Graph(nodes - {v}, set e | e in edges && e.0 != v && e.1 != v)
    }

    /** The subgraph spanned by `keep`. */
    function Restrict(keep: set<Phid>): Graph {
      Graph(nodes * keep, set e | e in edges && e.0 in keep && e.1 in keep)
    }
  }

  /** A non-empty walk along edges of the graph. */
  predicate IsWalk(g: Graph, p: seq<Phid>) {
    && |p| > 0
    && (forall v | v in p :: v in g.nodes)
    && (forall i | 0 <= i < |p| - 1 :: (p[i], p[i + 1]) in g.edges)
  }

  predicate IsSimplePath(g: Graph, p: seq<Phid>) {
    IsWalk(g, p) && Distinct(p)
  }

  /** The paths a user may land: simple, from a root to a leaf. */
  predicate IsRootToLeaf(g: Graph, p: seq<Phid>) {
    IsSimplePath(g, p) && g.IsRoot(p[0]) && g.IsLeaf(p[|p| - 1])
  }

  /** No walk along at least one edge returns to where it started. */
  ghost predicate Acyclic(g: Graph) {
    forall p | IsWalk(g, p) && |p| >= 2 :: p[0] != p[|p| - 1]
  }

  ghost predicate InDegreeAtMostOne(g: Graph) {
    forall e, f | e in g.edges && f in g.edges && e.1 == f.1 :: e == f
  }

  // ---------------------------------------------------------------------------
  // Facts about paths
  // ---------------------------------------------------------------------------

  /** A simple path is no longer than the graph has nodes, so searching for one terminates. */
  lemma SimplePathBound(g: Graph, p: seq<Phid>)
    requires IsSimplePath(g, p)
    ensures |p| <= |g.nodes|
  {
    DistinctSize(p);
    SubsetSize(Elements(p), g.nodes);
  }

  lemma AcyclicWalkIsSimple(g: Graph, p: seq<Phid>)
    requires Acyclic(g) && IsWalk(g, p)
    ensures IsSimplePath(g, p)
  {
    forall i, j | 0 <= i < j < |p|
      ensures p[i] != p[j]
    {
      var loop := p[i..j + 1];
      assert IsWalk(g, loop);
      assert loop[0] == p[i] && loop[|loop| - 1] == p[j];
    }
  }

  lemma SubgraphAcyclic(g: Graph, h: Graph)
    requires Acyclic(g) && h.nodes <= g.nodes && h.edges <= g.edges
    ensures Acyclic(h)
  {
    forall p | IsWalk(h, p) && |p| >= 2
      ensures p[0] != p[|p| - 1]
    {
      assert IsWalk(g, p);
    }
  }

  /** A walk in an acyclic graph extends forwards until it ends in a leaf. */
  lemma {:induction false} ExtendToLeaf(g: Graph, p: seq<Phid>) returns (q: seq<Phid>)
    requires g.Closed() && Acyclic(g) && IsWalk(g, p)
    ensures IsWalk(g, q) && p <= q && g.IsLeaf(q[|q| - 1])
    decreases |g.nodes| - |p|
  {
    AcyclicWalkIsSimple(g, p);
    SimplePathBound(g, p);
    var last := p[|p| - 1];
    if g.Children(last) == {} {
      q := p;
    } else {
      var c :| c in g.Children(last);
      var longer := p + [c];
      assert IsWalk(g, longer);
      AcyclicWalkIsSimple(g, longer);
      SimplePathBound(g, longer);
      q := ExtendToLeaf(g, longer);
    }
  }

  /** A walk in an acyclic graph extends backwards until it starts in a root. */
  lemma {:induction false} ExtendToRoot(g: Graph, p: seq<Phid>) returns (q: seq<Phid>)
    requires g.Closed() && Acyclic(g) && IsWalk(g, p)
    ensures IsWalk(g, q) && |q| >= |p| && q[|q| - |p|..] == p && g.IsRoot(q[0])
    decreases |g.nodes| - |p|
  {
    AcyclicWalkIsSimple(g, p);
    SimplePathBound(g, p);
    if g.Parents(p[0]) == {} {
      q := p;
    } else {
      var c :| c in g.Parents(p[0]);
      var longer := [c] + p;
      assert forall i | 0 < i < |longer| :: longer[i] == p[i - 1];
      assert IsWalk(g, longer);
      AcyclicWalkIsSimple(g, longer);
      SimplePathBound(g, longer);
      q := ExtendToRoot(g, longer);
      assert p == longer[1..];
    }
  }

  /** In an acyclic stack every revision lies on some root-to-leaf path. */
  lemma EveryNodeOnRootToLeafPath(g: Graph, v: Phid) returns (p: seq<Phid>)
    requires g.Closed() && Acyclic(g) && v in g.nodes
    ensures IsRootToLeaf(g, p) && v in p
  {
    var up := ExtendToRoot(g, [v]);
    assert up[|up| - 1] == v;
    p := ExtendToLeaf(g, up);
    AcyclicWalkIsSimple(g, p);
    assert p[|up| - 1] == v;
  }

  /** With at most one parent per node, walks that share their end agree backwards. */
  lemma {:induction false} SharedEndAgree(g: Graph, p: seq<Phid>, q: seq<Phid>, k: nat)
    requires InDegreeAtMostOne(g) && IsWalk(g, p) && IsWalk(g, q)
    requires p[|p| - 1] == q[|q| - 1] && k < |p| && k < |q|
    ensures p[|p| - 1 - k] == q[|q| - 1 - k]
    decreases k
  {
    if k > 0 {
      SharedEndAgree(g, p, q, k - 1);
      assert (p[|p| - 1 - k], p[|p| - k]) in g.edges;
      assert (q[|q| - 1 - k], q[|q| - k]) in g.edges;
    }
  }

  /** Only the first node of a walk can be a root, only its last node a leaf. */
  lemma InteriorNode(g: Graph, p: seq<Phid>, k: nat)
    requires IsWalk(g, p) && 0 < k < |p|
    ensures p[k - 1] in g.Parents(p[k]) && !g.IsRoot(p[k])
    ensures p[k] in g.Children(p[k - 1]) && !g.IsLeaf(p[k - 1])
  {
    assert (p[k - 1], p[k]) in g.edges;
  }

  /** In a forest, a leaf determines the root-to-leaf path that ends in it. */
  lemma OnePathPerLeaf(g: Graph, p: seq<Phid>, q: seq<Phid>)
    requires InDegreeAtMostOne(g) && IsRootToLeaf(g, p) && IsRootToLeaf(g, q)
    requires p[|p| - 1] == q[|q| - 1]
    ensures p == q
  {
    var k := if |p| < |q| then |p| - 1 else |q| - 1;
    SharedEndAgree(g, p, q, k);
    if |p| < |q| {
      InteriorNode(g, q, |q| - |p|);
    } else if |q| < |p| {
      InteriorNode(g, p, |p| - |q|);
    }
    forall i | 0 <= i < |p|
      ensures p[i] == q[i]
    {
      SharedEndAgree(g, p, q, |p| - 1 - i);
    }
  }

  /** In a forest every leaf ends exactly one root-to-leaf path. */
  lemma ForestPath(g: Graph, leaf: Phid) returns (p: seq<Phid>)
    requires g.Closed() && Acyclic(g) && InDegreeAtMostOne(g) && g.IsLeaf(leaf)
    ensures IsRootToLeaf(g, p) && p[|p| - 1] == leaf
    ensures forall q | IsRootToLeaf(g, q) && q[|q| - 1] == leaf :: q == p
  {
    p := EveryNodeOnRootToLeafPath(g, leaf);
    var k :| 0 <= k < |p| && p[k] == leaf;
    if k < |p| - 1 {
      InteriorNode(g, p, k + 1);
    }
    forall q | IsRootToLeaf(g, q) && q[|q| - 1] == leaf
      ensures q == p
    {
      OnePathPerLeaf(g, p, q);
    }
  }

  // ---------------------------------------------------------------------------
  // Parents-first orders
  // ---------------------------------------------------------------------------

  /** `order` lists exactly the nodes of the graph, once each. */
  predicate Enumerates(order: seq<Phid>, g: Graph) {
    && Distinct(order)
    && (forall i | 0 <= i < |order| :: order[i] in g.nodes)
    && (forall v | v in g.nodes :: v in order)
  }

  /** No revision is listed before a revision it depends on. */
  predicate ParentsFirst(order: seq<Phid>, g: Graph) {
    && Enumerates(order, g)
    && (forall i, j | 0 <= i < |order| && 0 <= j < |order| && (order[i], order[j]) in g.edges :: i < j)
  }

  lemma {:induction false} ParentsFirstWalk(order: seq<Phid>, g: Graph, p: seq<Phid>, a: nat, b: nat)
    requires ParentsFirst(order, g) && IsWalk(g, p) && |p| >= 2
    requires a < |order| && order[a] == p[0] && b < |order| && order[b] == p[|p| - 1]
    ensures a < b
    decreases |p|
  {
    assert (p[0], p[1]) in g.edges;
    if |p| > 2 {
      assert p[1] in order;
      var c :| 0 <= c < |order| && order[c] == p[1];
      assert IsWalk(g, p[1..]);
      ParentsFirstWalk(order, g, p[1..], c, b);
    }
  }

  lemma {:induction false} ParentsFirstOrder(g: Graph) returns (order: seq<Phid>)
    requires g.Closed() && Acyclic(g)
    ensures ParentsFirst(order, g)
    decreases |g.nodes|
  {
    if g.nodes == {} {
      order := [];
    } else {
      var v :| v in g.nodes;
      var down := ExtendToLeaf(g, [v]);
      var leaf := down[|down| - 1];
      var rest := g.Remove(leaf);
      SubgraphAcyclic(g, rest);
      var init := ParentsFirstOrder(rest);
      order := init + [leaf];
      assert leaf !in init;
      forall i, j | 0 <= i < |order| && 0 <= j < |order| && (order[i], order[j]) in g.edges
        ensures i < j
      {
        assert order[j] in g.Children(order[i]);
        assert order[i] != leaf;
        if j < |init| {
          assert (init[i], init[j]) in rest.edges;
        }
      }
    }
  }

  /** A stack can be listed parents-first exactly when it has no cycle. */
  lemma ParentsFirstIffAcyclic(g: Graph)
    requires g.Closed()
    ensures (exists order :: ParentsFirst(order, g)) <==> Acyclic(g)
  {
    if Acyclic(g) {
      var order := ParentsFirstOrder(g);
    }
    forall order, p | ParentsFirst(order, g) && IsWalk(g, p) && |p| >= 2
      ensures p[0] != p[|p| - 1]
    {
      assert p[0] in order;
      var a :| 0 <= a < |order| && order[a] == p[0];
      if p[0] == p[|p| - 1] {
        ParentsFirstWalk(order, g, p, a, a);
      }
    }
  }

  // ---------------------------------------------------------------------------
  // Building a stack and listing its paths
  // ---------------------------------------------------------------------------

  /** The nodes and `(child, parent)` edges of Phabricator's `stackGraph` field. */
  method BuildStackGraph(stackGraph: map<Phid, seq<Phid>>)
    returns (phids: set<Phid>, edges: set<(Phid, Phid)>)
    ensures phids == stackGraph.Keys
    ensures forall c, p :: (c, p) in edges <==> c in stackGraph && p in stackGraph[c]
  {
    phids := stackGraph.Keys;
    edges := {};
    var todo := stackGraph.Keys;
    while todo != {}
      invariant todo <= stackGraph.Keys
      invariant forall c, p :: (c, p) in edges <==> c in stackGraph && c !in todo && p in stackGraph[c]
      decreases todo
    {
      var node :| node in todo;
      var predecessors := stackGraph[node];
      for i := 0 to |predecessors|
        invariant forall c, p :: (c, p) in edges <==>
          (c in stackGraph && c !in todo && p in stackGraph[c]) || (c == node && p in predecessors[..i])
      {
        edges := edges + {(node, predecessors[i])};
        assert predecessors[..i + 1] == predecessors[..i] + [predecessors[i]];
      }
      assert predecessors[..|predecessors|] == predecessors;
      todo := todo - {node};
    }
  }

  /** The graph of a stack: `(child, parent)` pairs reversed, then every node added. */
  function StackGraph(nodes: set<Phid>, edges: set<(Phid, Phid)>): (g: Graph)
    ensures g.Closed()
    ensures forall v :: v in g.nodes <==> v in nodes || exists e | e in edges :: v == e.0 || v == e.1
    ensures forall c, p :: (c, p) in edges <==> (p, c) in g.edges
    ensures forall c, p :: (c, p) in edges <==> p in g.Parents(c)
  {
    var reversed := set e | e in edges :: (e.1, e.0);
    var g := Graph(nodes + (set e | e in edges :: e.0) + (set e | e in edges :: e.1), reversed);
    assert forall c, p :: (c, p) in edges <==> (p, c) in g.edges by {
      forall c, p
        ensures (c, p) in edges <==> (p, c) in g.edges
      {
        if (p, c) in reversed {
          var e :| e in edges && (e.1, e.0) == (p, c);
          assert e == (c, p);
        }
      }
    }
    assert forall c, p :: (p, c) in g.edges <==> p in g.Parents(c);
    g
  }

  /** Every simple path that properly extends `prefix` and ends in `targets`, each once. */
  method AllSimplePaths(g: Graph, prefix: seq<Phid>, targets: set<Phid>) returns (paths: seq<seq<Phid>>)
    requires g.Closed() && IsSimplePath(g, prefix)
    ensures Distinct(paths)
    ensures forall q :: q in paths <==> IsSimplePath(g, q) && prefix < q && q[|q| - 1] in targets
    decreases |g.nodes| - |prefix|
  {
    paths := [];
    SimplePathBound(g, prefix);
    var last := prefix[|prefix| - 1];
    var todo := g.Children(last);
    while todo != {}
      invariant todo <= g.Children(last)
      invariant Distinct(paths)
      invariant forall q :: q in paths <==>
        && IsSimplePath(g, q) && prefix < q && q[|q| - 1] in targets
        && q[|prefix|] !in todo
      decreases todo
    {
      var c :| c in todo;
      var found: seq<seq<Phid>> := [];
      if c !in prefix {
        var longer := prefix + [c];
        assert IsSimplePath(g, longer);
        SimplePathBound(g, longer);
        var sub := AllSimplePaths(g, longer, targets);
        var here := if c in targets then [longer] else [];
        found := here + sub;
        assert Distinct(found);
        forall q
          ensures q in found <==> IsSimplePath(g, q) && prefix < q && q[|q| - 1] in targets && q[|prefix|] == c
        {
          SplitExtension(prefix, q, c);
        }
      } else {
        forall q | IsSimplePath(g, q) && prefix < q
          ensures q[|prefix|] != c
        {
          var i :| 0 <= i < |prefix| && prefix[i] == c;
          assert q[i] != q[|prefix|];
        }
      }
      DistinctConcat(paths, found);
      paths := paths + found;
      todo := todo - {c};
    }
    forall q | IsSimplePath(g, q) && prefix < q
      ensures q[|prefix|] in g.Children(last)
    {
      assert (q[|prefix| - 1], q[|prefix|]) in g.edges;
    }
  }

  lemma SplitExtension<T>(prefix: seq<T>, q: seq<T>, c: T)
    ensures prefix < q && q[|prefix|] == c <==> q == prefix + [c] || prefix + [c] < q
  {
    if prefix < q && q[|prefix|] == c {
      assert prefix + [c] <= q;
    }
  }

  /** A stack whose nodes are removed in place as they turn out to be blocked. */
  class RevisionStack {
    var graph: Graph

    ghost predicate Valid()
      reads this
    {
      graph.Closed()
    }

    constructor (nodes: set<Phid>, edges: set<(Phid, Phid)>)
      ensures Valid() && graph == StackGraph(nodes, edges)
    {
      graph := StackGraph(nodes, edges);
    }

    /** The copy that `StackAssessmentState` prunes. */
    constructor Copy(original: RevisionStack)
      requires original.Valid()
      ensures Valid() && graph == original.graph
    {
      graph := original.graph;
    }

    method RemoveNode(v: Phid)
      requires Valid() && v in graph.nodes
      modifies this
      ensures Valid() && graph == old(graph).Remove(v)
      ensures graph.nodes == old(graph.nodes) - {v}
      ensures forall e :: e in graph.edges <==> e in old(graph.edges) && e.0 != v && e.1 != v
    {
      graph := graph.Remove(v);
    }

    /** Exactly the simple root-to-leaf paths, isolated nodes included, each listed once. */
    method LandablePaths() returns (paths: seq<seq<Phid>>)
      requires Valid()
      ensures Distinct(paths)
      ensures forall p :: p in paths <==> IsRootToLeaf(graph, p)
    {
      var leaves := set v | v in graph.nodes && graph.IsLeaf(v);
      var roots := set v | v in graph.nodes && graph.IsRoot(v);
      paths := [];
      while roots != {}
        invariant forall v | v in roots :: graph.IsRoot(v)
        invariant Distinct(paths)
        invariant forall p :: p in paths <==> IsRootToLeaf(graph, p) && p[0] !in roots
        decreases roots
      {
        var root :| root in roots;
        var found := [[root]];
        if root in leaves {
          forall p
            ensures p in found <==> IsRootToLeaf(graph, p) && p[0] == root
          {
            if IsRootToLeaf(graph, p) && p[0] == root {
              if |p| > 1 {
                InteriorNode(graph, p, 1);
              } else {
                assert p == [root];
              }
            }
          }
        } else {
          found := AllSimplePaths(graph, [root], leaves);
          forall p
            ensures p in found <==> IsRootToLeaf(graph, p) && p[0] == root
          {
            if IsRootToLeaf(graph, p) && p[0] == root {
              assert p[|p| - 1] in leaves;
              assert [root] < p;
            }
          }
        }
        DistinctConcat(paths, found);
        paths := paths + found;
        roots := roots - {root};
      }
    }
  }
}
