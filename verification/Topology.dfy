/** The fan-out topology: target chains under one canonical root beside unrelated chains. */
module Topology {
  import opened Prelude
  import opened Dependencies

  /** Node identifiers; each constructor stands for one injective string format. */
  datatype NodeId =
    | TargetRoot
    | Target(branch: nat, layer: nat)
    | UnrelatedRoot(branch: nat)
    | Unrelated(branch: nat, layer: nat)

  type Edges = map<NodeId, set<NodeId>>

  function NodeAt(branch: nat, layer: nat, fanout: nat): NodeId {
    if branch < fanout then Target(branch, layer) else Unrelated(branch, layer)
  }

  function ParentOf(n: NodeId): NodeId {
    match n
    case Target(b, l) => if l == 0 then TargetRoot else Target(b, l - 1)
    case Unrelated(b, l) => if l == 0 then UnrelatedRoot(b) else Unrelated(b, l - 1)
    case _ => n
  }

  /** `n` lies on the chains before `branch`, or below `layer` on the chain of `branch`. */
  ghost predicate Built(n: NodeId, depth: nat, fanout: nat, branch: nat, layer: nat) {
    match n
    case Target(b, l) => b < fanout && l < depth && (b < branch || (b == branch && l < layer))
    case Unrelated(b, l) => fanout <= b && l < depth && (b < branch || (b == branch && l < layer))
    case _ => false
  }

  /** Exactly the built nodes are registered, fresh, each depending on its parent alone. */
  ghost predicate HasShape(dependencies: Edges, status: map<NodeId, DerivationStatus>,
                           depth: nat, fanout: nat, branch: nat, layer: nat) {
    && (forall n :: n in dependencies <==> Built(n, depth, fanout, branch, layer))
    && (forall n :: n in dependencies ==> dependencies[n] == {ParentOf(n)})
    && (forall n :: StatusOf(status, n) == if n in dependencies then Some(Fresh) else None)
  }

  function LabelOf(n: NodeId): string {
    match n
    case Target(_, l) => "layer-" + Decimal(l)
    case Unrelated(_, l) => "layer-" + Decimal(l)
    case _ => ""
  }

  /** Every registered node carries its layer as its kind. */
  ghost predicate Labelled(kind: map<NodeId, string>) {
    forall n :: n in kind ==> kind[n] == LabelOf(n)
  }

  lemma ShapeStep(dependencies: Edges, status: map<NodeId, DerivationStatus>, depth: nat, fanout: nat, branch: nat,
                  layer: nat)
    requires HasShape(dependencies, status, depth, fanout, branch, layer) && layer < depth
    ensures var n := NodeAt(branch, layer, fanout);
            HasShape(dependencies[n := {ParentOf(n)}], status[n := Fresh], depth, fanout, branch, layer + 1)
  {
  }

  lemma ShapeNextBranch(dependencies: Edges, status: map<NodeId, DerivationStatus>, depth: nat, fanout: nat,
                        branch: nat)
    requires HasShape(dependencies, status, depth, fanout, branch, depth)
    ensures HasShape(dependencies, status, depth, fanout, branch + 1, 0)
  {
  }

  /** The built graph, node by node: who is registered, below whom, in what status and of what kind. */
  lemma ShapeExactly(dependencies: Edges, status: map<NodeId, DerivationStatus>, kind: map<NodeId, string>,
                     depth: nat, fanout: nat, total: nat, n: NodeId)
    requires HasShape(dependencies, status, depth, fanout, total, 0) && fanout <= total
    requires Labelled(kind) && kind.Keys == dependencies.Keys
    ensures n in dependencies <==> match n
      case Target(b, l) => b < fanout && l < depth
      case Unrelated(b, l) => fanout <= b < total && l < depth
      case _ => false
    ensures n in dependencies ==> n in status && status[n] == Fresh
    ensures n in dependencies && n.Target? ==>
              && dependencies[n] == {if n.layer == 0 then TargetRoot else Target(n.branch, n.layer - 1)}
              && kind[n] == "layer-" + Decimal(n.layer)
    ensures n in dependencies && n.Unrelated? ==>
              && dependencies[n] == {if n.layer == 0 then UnrelatedRoot(n.branch) else Unrelated(n.branch, n.layer - 1)}
              && kind[n] == "layer-" + Decimal(n.layer)
  {
    assert StatusOf(status, n) == if n in dependencies then Some(Fresh) else None;
  }

  /** One chain of `depth` derived nodes hung below `start`. */
  method AddChain(graph: DependencyGraph<NodeId>, branch: nat, depth: nat, fanout: nat, start: NodeId)
    requires graph.Valid() && start == ParentOf(NodeAt(branch, 0, fanout))
    requires HasShape(graph.dependencies, graph.status, depth, fanout, branch, 0) && Labelled(graph.kind)
    modifies graph
    ensures graph.Valid()
    ensures HasShape(graph.dependencies, graph.status, depth, fanout, branch + 1, 0) && Labelled(graph.kind)
  {
    hide HasShape, Mirrored, Decimal;
    var parent := start;
    var layer := 0;
    while layer < depth
      invariant layer <= depth && graph.Valid()
      invariant parent == ParentOf(NodeAt(branch, layer, fanout))
      invariant HasShape(graph.dependencies, graph.status, depth, fanout, branch, layer) && Labelled(graph.kind)
    {
      var node := NodeAt(branch, layer, fanout);
      ShapeStep(graph.dependencies, graph.status, depth, fanout, branch, layer);
      var _ := graph.RegisterDerived(node, "layer-" + Decimal(layer), {parent}, Fresh);
      parent := node;
      layer := layer + 1;
    }
    ShapeNextBranch(graph.dependencies, graph.status, depth, fanout, branch);
  }

  datatype TopologyCase = TopologyCase(
    totalBranches: nat, depth: nat, fanout: nat, expectedAffectedNodes: nat, totalDerivedNodes: nat,
    graph: DependencyGraph<NodeId>, rootId: NodeId, unaffectedProbe: Option<NodeId>)

  datatype CaseResult = Case(value: TopologyCase) | DepthBelowOne | FanoutOutOfRange

  /** `fanout` target chains and `totalBranches - fanout` unrelated ones, all of equal depth. */
  method BuildTopologyCase(totalBranches: int, depth: int, fanout: int) returns (r: CaseResult)
    ensures r.DepthBelowOne? <==> depth < 1
    ensures r.FanoutOutOfRange? <==> depth >= 1 && (fanout < 1 || fanout > totalBranches)
    ensures r.Case? ==>
              var c := r.value;
              && fresh(c.graph) && c.graph.Valid()
              && c.rootId == TargetRoot && c.totalBranches == totalBranches && c.depth == depth && c.fanout == fanout
              && c.expectedAffectedNodes == fanout * depth && c.totalDerivedNodes == totalBranches * depth
              && c.unaffectedProbe == (if fanout < totalBranches then Some(Unrelated(fanout, 0)) else None)
              && HasShape(c.graph.dependencies, c.graph.status, depth, fanout, totalBranches, 0)
              && Labelled(c.graph.kind)
  {
    hide HasShape, Mirrored;
    if depth < 1 {
      return DepthBelowOne;
    }
    if fanout < 1 || fanout > totalBranches {
      return FanoutOutOfRange;
    }
    var graph := new DependencyGraph<NodeId>();
    EmptyShape(depth, fanout);
    var branch: nat := 0;
    while branch < fanout
      invariant branch <= fanout && graph.Valid() && fresh(graph)
      invariant HasShape(graph.dependencies, graph.status, depth, fanout, branch, 0) && Labelled(graph.kind)
    {
      AddChain(graph, branch, depth, fanout, TargetRoot);
      branch := branch + 1;
    }
    var probe: Option<NodeId> := None;
    while branch < totalBranches
      invariant fanout <= branch <= totalBranches && graph.Valid() && fresh(graph)
      invariant HasShape(graph.dependencies, graph.status, depth, fanout, branch, 0) && Labelled(graph.kind)
      invariant probe == if branch > fanout then Some(Unrelated(fanout, 0)) else None
    {
      AddChain(graph, branch, depth, fanout, UnrelatedRoot(branch));
      if probe == None {
        probe := Some(Unrelated(branch, 0));
      }
      branch := branch + 1;
    }
    var affected, total := Product(fanout, depth), Product(totalBranches, depth);
    r := Case(TopologyCase(totalBranches, depth, fanout, affected, total, graph, TargetRoot, probe));
  }

  function Product(a: nat, b: nat): (c: nat)
    ensures c == a * b
  {
    a * b
  }

  lemma EmptyShape(depth: nat, fanout: nat)
    ensures HasShape(map[], map[], depth, fanout, 0, 0)
  {
  }

  // ----- the affected region

  ghost predicate IsTarget(n: NodeId, depth: nat, fanout: nat) {
    n.Target? && n.branch < fanout && n.layer < depth
  }

  ghost function TargetsBelow(depth: nat, branches: nat): set<NodeId> {
    set b: nat, l: nat | b < branches && l < depth :: Target(b, l)
  }

  ghost function ChainOf(branch: nat, depth: nat): set<NodeId> {
    set l: nat | l < depth :: Target(branch, l)
  }

  lemma {:induction false} ChainSize(branch: nat, depth: nat)
    ensures |ChainOf(branch, depth)| == depth
  {
    if depth > 0 {
      ChainSize(branch, depth - 1);
      assert ChainOf(branch, depth) == ChainOf(branch, depth - 1) + {Target(branch, depth - 1)};
    }
  }

  lemma {:induction false} TargetsSize(depth: nat, branches: nat)
    ensures |TargetsBelow(depth, branches)| == branches * depth
  {
    hide TargetsBelow, ChainOf;
    if branches > 0 {
      TargetsSize(depth, branches - 1);
      ChainSize(branches - 1, depth);
      TargetsStep(depth, branches - 1);
      assert branches * depth == (branches - 1) * depth + depth;
    } else {
      InTargets(depth, branches);
      assert TargetsBelow(depth, branches) == {};
    }
  }

  lemma InTargets(depth: nat, branches: nat)
    ensures forall n :: n in TargetsBelow(depth, branches) <==> IsTarget(n, depth, branches)
  {
    forall n ensures n in TargetsBelow(depth, branches) <==> IsTarget(n, depth, branches) {
      if IsTarget(n, depth, branches) {
        assert n == Target(n.branch, n.layer);
      }
    }
  }

  lemma TargetsStep(depth: nat, branches: nat)
    ensures TargetsBelow(depth, branches + 1) == TargetsBelow(depth, branches) + ChainOf(branches, depth)
    ensures TargetsBelow(depth, branches) !! ChainOf(branches, depth)
  {
    hide TargetsBelow;
    InTargets(depth, branches);
    InTargets(depth, branches + 1);
  }

  /** The dependents of a node are the derived nodes whose parent it is. */
  lemma ChildrenOf(dependencies: Edges, dependents: Edges, status: map<NodeId, DerivationStatus>, total: nat,
                   depth: nat, fanout: nat, d: NodeId, n: NodeId)
    requires Mirrored(dependencies, dependents) && HasShape(dependencies, status, depth, fanout, total, 0)
    ensures n in Next(dependents, d) <==> Built(n, depth, fanout, total, 0) && d == ParentOf(n)
  {
    assert n in Next(dependents, d) <==> d in Next(dependencies, n);
  }

  /** From the target root exactly the target chains are reached. */
  lemma TargetsReached(dependencies: Edges, dependents: Edges, status: map<NodeId, DerivationStatus>, total: nat,
                       depth: nat, fanout: nat, x: NodeId)
    requires Mirrored(dependencies, dependents) && HasShape(dependencies, status, depth, fanout, total, 0)
    requires fanout <= total
    ensures Reachable(dependents, {TargetRoot}, x) <==>
            x == TargetRoot || (x.Target? && x.branch < fanout && x.layer < depth)
    ensures Downstream(dependents, {TargetRoot}, x) <==> x.Target? && x.branch < fanout && x.layer < depth
  {
    hide Reachable, HasShape, Mirrored;
    var closed := {TargetRoot} + TargetsBelow(depth, fanout);
    forall d, n | d in closed && n in Next(dependents, d) ensures n in closed {
      ChildrenOf(dependencies, dependents, status, total, depth, fanout, d, n);
    }
    if Reachable(dependents, {TargetRoot}, x) {
      ReachableWithin(dependents, {TargetRoot}, closed, x);
    }
    RootReachable(dependents, {TargetRoot}, TargetRoot);
    if IsTarget(x, depth, fanout) {
      DownTheChain(dependencies, dependents, status, total, depth, fanout, x.branch, x.layer);
    }
    if Downstream(dependents, {TargetRoot}, x) {
      var d :| Reachable(dependents, {TargetRoot}, d) && x in Next(dependents, d);
      ReachableWithin(dependents, {TargetRoot}, closed, d);
      ChildrenOf(dependencies, dependents, status, total, depth, fanout, d, x);
    }
  }

  lemma {:induction false} DownTheChain(dependencies: Edges, dependents: Edges, status: map<NodeId, DerivationStatus>,
                                        total: nat, depth: nat, fanout: nat, branch: nat, layer: nat)
    requires Mirrored(dependencies, dependents) && HasShape(dependencies, status, depth, fanout, total, 0)
    requires branch < fanout <= total && layer < depth
    ensures Reachable(dependents, {TargetRoot}, Target(branch, layer))
    ensures Downstream(dependents, {TargetRoot}, Target(branch, layer))
  {
    hide Reachable, HasShape, Mirrored;
    var n := Target(branch, layer);
    if layer == 0 {
      RootReachable(dependents, {TargetRoot}, TargetRoot);
    } else {
      DownTheChain(dependencies, dependents, status, total, depth, fanout, branch, layer - 1);
    }
    ChildrenOf(dependencies, dependents, status, total, depth, fanout, ParentOf(n), n);
    ReachableStep(dependents, {TargetRoot}, ParentOf(n), n);
  }

  /**
   Invalidating the target root touches `fanout * depth` nodes however many branches exist,
   traverses one edge for each, and leaves every unrelated node, the probe included, fresh.
   */
  method InvalidateTarget(c: TopologyCase) returns (trace: DependencyTrace<NodeId>)
    requires c.graph.Valid() && c.rootId == TargetRoot && c.fanout <= c.totalBranches
    requires HasShape(c.graph.dependencies, c.graph.status, c.depth, c.fanout, c.totalBranches, 0)
    requires c.expectedAffectedNodes == c.fanout * c.depth
    modifies c.graph
    ensures c.graph.Valid()
    ensures trace.nodesInvalidated == trace.edgesTraversed == c.expectedAffectedNodes
    ensures trace.nodesVisited == c.expectedAffectedNodes + 1 && trace.rootsSeen == 1
    ensures forall n: NodeId :: n in trace.invalidatedNodeIds <==> n.Target? && n.branch < c.fanout && n.layer < c.depth
    ensures forall n: NodeId :: n.Target? && n.branch < c.fanout && n.layer < c.depth ==>
              n in c.graph.status && c.graph.status[n] == Invalid
    ensures forall n: NodeId :: n.Unrelated? && c.fanout <= n.branch < c.totalBranches && n.layer < c.depth ==>
              n in c.graph.status && c.graph.status[n] == Fresh
  {
    hide Reachable, Downstream, Mirrored, Leaving, TargetsBelow, HasShape, Built, StatusOf;
    ghost var dependencies, dependents, status := c.graph.dependencies, c.graph.dependents, c.graph.status;
    ghost var region;
    trace, region := c.graph.InvalidateFrom({c.rootId});
    RegionFacts(dependencies, dependents, status, c.totalBranches, c.depth, c.fanout, region);
    forall x
      ensures x in trace.invalidatedNodeIds <==> IsTarget(x, c.depth, c.fanout)
    {
      BuiltFresh(dependencies, status, c.totalBranches, c.depth, c.fanout, x);
    }
    TargetCount(c.depth, c.fanout, trace.invalidatedNodeIds);
    forall n | IsTarget(n, c.depth, c.fanout) ensures StatusOf(c.graph.status, n) == Some(Invalid) {
      BuiltFresh(dependencies, status, c.totalBranches, c.depth, c.fanout, n);
    }
    forall n | Built(n, c.depth, c.fanout, c.totalBranches, 0) && n.Unrelated?
      ensures StatusOf(c.graph.status, n) == Some(Fresh)
    {
      BuiltFresh(dependencies, status, c.totalBranches, c.depth, c.fanout, n);
    }
    StatusReports(c);
  }

  lemma StatusReports(c: TopologyCase)
    requires c.fanout <= c.totalBranches
    requires forall n :: IsTarget(n, c.depth, c.fanout) ==> StatusOf(c.graph.status, n) == Some(Invalid)
    requires forall n :: Built(n, c.depth, c.fanout, c.totalBranches, 0) && n.Unrelated? ==>
               StatusOf(c.graph.status, n) == Some(Fresh)
    ensures forall n: NodeId :: n.Target? && n.branch < c.fanout && n.layer < c.depth ==>
              n in c.graph.status && c.graph.status[n] == Invalid
    ensures forall n: NodeId :: n.Unrelated? && c.fanout <= n.branch < c.totalBranches && n.layer < c.depth ==>
              n in c.graph.status && c.graph.status[n] == Fresh
  {
    forall n: NodeId | n.Target? && n.branch < c.fanout && n.layer < c.depth
      ensures n in c.graph.status && c.graph.status[n] == Invalid
    {
      assert IsTarget(n, c.depth, c.fanout);
    }
    forall n: NodeId | n.Unrelated? && c.fanout <= n.branch < c.totalBranches && n.layer < c.depth
      ensures n in c.graph.status && c.graph.status[n] == Fresh
    {
      assert Built(n, c.depth, c.fanout, c.totalBranches, 0);
    }
  }

  lemma RegionFacts(dependencies: Edges, dependents: Edges, status: map<NodeId, DerivationStatus>, total: nat,
                    depth: nat, fanout: nat, region: set<NodeId>)
    requires Mirrored(dependencies, dependents) && HasShape(dependencies, status, depth, fanout, total, 0)
    requires fanout <= total && forall x :: x in region <==> Reachable(dependents, {TargetRoot}, x)
    ensures |region| == fanout * depth + 1 && |Leaving(dependents, region)| == fanout * depth
    ensures forall x :: Downstream(dependents, {TargetRoot}, x) <==> IsTarget(x, depth, fanout)
  {
    hide Reachable, Downstream, Mirrored, Leaving, TargetsBelow, HasShape;
    forall x
      ensures Reachable(dependents, {TargetRoot}, x) <==> x == TargetRoot || IsTarget(x, depth, fanout)
      ensures Downstream(dependents, {TargetRoot}, x) <==> IsTarget(x, depth, fanout)
    {
      TargetsReached(dependencies, dependents, status, total, depth, fanout, x);
    }
    TargetsSize(depth, fanout);
    InTargets(depth, fanout);
    assert region == {TargetRoot} + TargetsBelow(depth, fanout);
    OneEdgeEach(dependencies, dependents, status, total, depth, fanout);
  }

  lemma TargetCount(depth: nat, fanout: nat, nodes: set<NodeId>)
    requires forall n :: n in nodes <==> IsTarget(n, depth, fanout)
    ensures |nodes| == fanout * depth
  {
    hide TargetsBelow;
    TargetsSize(depth, fanout);
    InTargets(depth, fanout);
    assert nodes == TargetsBelow(depth, fanout);
  }

  lemma BuiltFresh(dependencies: Edges, status: map<NodeId, DerivationStatus>, total: nat, depth: nat, fanout: nat,
                   n: NodeId)
    requires HasShape(dependencies, status, depth, fanout, total, 0) && fanout <= total
    ensures StatusOf(status, n) != Some(Invalid)
    ensures Built(n, depth, fanout, total, 0) ==> StatusOf(status, n) == Some(Fresh)
    ensures n.Unrelated? ==> !IsTarget(n, depth, fanout)
  {
  }

  ghost function ParentEdges(nodes: set<NodeId>): set<(NodeId, NodeId)> {
    set n | n in nodes :: (ParentOf(n), n)
  }

  lemma {:induction false} ParentEdgesSize(nodes: set<NodeId>)
    ensures |ParentEdges(nodes)| == |nodes|
  {
    if n :| n in nodes {
      ParentEdgesSize(nodes - {n});
      assert ParentEdges(nodes) == ParentEdges(nodes - {n}) + {(ParentOf(n), n)};
    }
  }

  lemma OneEdgeEach(dependencies: Edges, dependents: Edges, status: map<NodeId, DerivationStatus>, total: nat,
                    depth: nat, fanout: nat)
    requires Mirrored(dependencies, dependents) && HasShape(dependencies, status, depth, fanout, total, 0)
    requires fanout <= total
    ensures |Leaving(dependents, {TargetRoot} + TargetsBelow(depth, fanout))| == fanout * depth
  {
    hide HasShape, Mirrored;
    var targets := TargetsBelow(depth, fanout);
    forall d, n ensures (d, n) in Leaving(dependents, {TargetRoot} + targets) <==> (d, n) in ParentEdges(targets) {
      ChildrenOf(dependencies, dependents, status, total, depth, fanout, d, n);
    }
    assert Leaving(dependents, {TargetRoot} + targets) == ParentEdges(targets) by {
      forall e ensures e in Leaving(dependents, {TargetRoot} + targets) <==> e in ParentEdges(targets) {
        assert e == (e.0, e.1);
      }
    }
    ParentEdgesSize(targets);
    TargetsSize(depth, fanout);
  }
}
