/**
 The reverse dependency graph of rebuildable derivations: registration keeps two mirrored
 edge tables, invalidation marks exactly the reachable derived region.
 */
module Dependencies {
  import opened Prelude

  datatype DerivationStatus = Fresh | Invalid | Rebuilding

  /** The nodes a table lists for `n`; an absent entry lists none. */
  function Next<N(==)>(table: map<N, set<N>>, n: N): set<N> {
    if n in table then table[n] else {}
  }

  /** The two tables record the same edges, and no dependents entry is empty. */
  ghost predicate Mirrored<N(!new)>(dependencies: map<N, set<N>>, dependents: map<N, set<N>>) {
    && (forall d :: d in dependents ==> dependents[d] != {})
    && (forall d, n :: n in Next(dependents, d) <==> d in Next(dependencies, n))
  }

  // ----- reachability

  ghost predicate IsPath<N(!new)>(table: map<N, set<N>>, p: seq<N>) {
    p != [] && forall i :: 0 < i < |p| ==> p[i] in Next(table, p[i - 1])
  }

  /** Some path of dependents leads from a root to `x`. */
  ghost predicate Reachable<N(!new)>(table: map<N, set<N>>, roots: set<N>, x: N) {
    exists p :: IsPath(table, p) && p[0] in roots && p[|p| - 1] == x
  }

  /** The same with at least one edge. */
  ghost predicate Downstream<N(!new)>(table: map<N, set<N>>, roots: set<N>, x: N) {
    exists d :: Reachable(table, roots, d) && x in Next(table, d)
  }

  lemma RootReachable<N(!new)>(table: map<N, set<N>>, roots: set<N>, x: N)
    requires x in roots
    ensures Reachable(table, roots, x)
  {
    assert IsPath(table, [x]);
  }

  lemma ReachableStep<N(!new)>(table: map<N, set<N>>, roots: set<N>, d: N, x: N)
    requires Reachable(table, roots, d) && x in Next(table, d)
    ensures Reachable(table, roots, x)
  {
    var p :| IsPath(table, p) && p[0] in roots && p[|p| - 1] == d;
    var q := p + [x];
    assert forall i :: 0 < i < |q| ==> q[i] in Next(table, q[i - 1]);
    assert q[0] in roots && q[|q| - 1] == x;
  }

  /** A set that holds the roots and is closed under dependents holds everything reachable. */
  lemma ReachableWithin<N(!new)>(table: map<N, set<N>>, roots: set<N>, closed: set<N>, x: N)
    requires roots <= closed && forall d :: d in closed ==> Next(table, d) <= closed
    requires Reachable(table, roots, x)
    ensures x in closed
  {
    var p :| IsPath(table, p) && p[0] in roots && p[|p| - 1] == x;
    PathWithin(table, closed, p, |p| - 1);
  }

  lemma {:induction false} PathWithin<N(!new)>(table: map<N, set<N>>, closed: set<N>, p: seq<N>, i: nat)
    requires IsPath(table, p) && i < |p| && p[0] in closed
    requires forall d :: d in closed ==> Next(table, d) <= closed
    ensures p[i] in closed
  {
    if i > 0 {
      PathWithin(table, closed, p, i - 1);
    }
  }

  /** The edges that leave a set of nodes. */
  ghost function Leaving<N(!new)>(table: map<N, set<N>>, nodes: set<N>): set<(N, N)> {
    set d, n | d in nodes && n in Next(table, d) :: (d, n)
  }

  ghost function Fan<N(!new)>(d: N, ns: set<N>): set<(N, N)> {
    set n | n in ns :: (d, n)
  }

  lemma {:induction false} FanSize<N(!new)>(d: N, ns: set<N>)
    ensures |Fan(d, ns)| == |ns|
  {
    if n :| n in ns {
      FanSize(d, ns - {n});
      assert Fan(d, ns) == Fan(d, ns - {n}) + {(d, n)};
    }
  }

  lemma LeavingAdd<N(!new)>(table: map<N, set<N>>, nodes: set<N>, d: N)
    requires d !in nodes
    ensures |Leaving(table, nodes + {d})| == |Leaving(table, nodes)| + |Next(table, d)|
  {
    var fan := Fan(d, Next(table, d));
    assert Leaving(table, nodes + {d}) == Leaving(table, nodes) + fan;
    assert Leaving(table, nodes) !! fan;
    FanSize(d, Next(table, d));
  }

  datatype DependencyTrace<!N> = DependencyTrace(
    rootsSeen: nat, nodesVisited: nat, edgesTraversed: nat, nodesInvalidated: nat,
    edgesRegistered: nat, edgesRemoved: nat, invalidatedNodeIds: set<N>)

  function StatusOf<N(==)>(status: map<N, DerivationStatus>, n: N): Option<DerivationStatus> {
    if n in status then Some(status[n]) else None
  }

  /** Statuses after the nodes `touched` have been marked invalid. */
  ghost predicate Marked<N(!new)>(before: map<N, DerivationStatus>, after: map<N, DerivationStatus>, touched: set<N>) {
    forall n :: StatusOf(after, n) == if n in touched then Some(Invalid) else StatusOf(before, n)
  }

  ghost function Touched<N(!new)>(table: map<N, set<N>>, nodes: set<N>): set<N> {
    set d, n | d in nodes && n in Next(table, d) :: n
  }

  /** The touched nodes that were not invalid before. */
  ghost function Newly<N(!new)>(before: map<N, DerivationStatus>, touched: set<N>): set<N> {
    set n | n in touched && StatusOf(before, n) != Some(Invalid)
  }

  ghost function Queued<N(!new)>(queue: seq<N>): set<N> {
    set n | n in queue
  }

  ghost predicate Distinct<N(!new)>(queue: seq<N>) {
    forall i, j :: 0 <= i < j < |queue| ==> queue[i] != queue[j]
  }

  lemma QueuedSnoc<N(!new)>(queue: seq<N>, n: N)
    requires Distinct(queue) && n !in queue
    ensures Distinct(queue + [n]) && Queued(queue + [n]) == Queued(queue) + {n}
  {
  }

  lemma QueuedTail<N(!new)>(queue: seq<N>)
    requires Distinct(queue) && queue != []
    ensures Distinct(queue[1..]) && queue[0] !in Queued(queue[1..])
    ensures Queued(queue) == {queue[0]} + Queued(queue[1..])
  {
    assert queue == [queue[0]] + queue[1..];
  }

  /** `seen` is the visited region together with a duplicate-free queue outside it. */
  ghost predicate Frontier<N(!new)>(queue: seq<N>, seen: set<N>, region: set<N>) {
    Distinct(queue) && Queued(queue) !! region && seen == region + Queued(queue)
  }

  method Enqueue<N(==,!new)>(queue: seq<N>, seen: set<N>, n: N, ghost region: set<N>)
    returns (queue': seq<N>, seen': set<N>)
    requires Frontier(queue, seen, region)
    ensures Frontier(queue', seen', region) && seen' == seen + {n}
  {
    hide Distinct, Queued;
    queue', seen' := queue, seen;
    if n !in seen {
      NotQueued(queue, n);
      QueuedSnoc(queue, n);
      queue', seen' := queue + [n], seen + {n};
    }
  }

  method Mark<N(==,!new)>(status: map<N, DerivationStatus>, invalidated: set<N>, n: N, marked: nat)
    returns (status': map<N, DerivationStatus>, invalidated': set<N>, marked': nat)
    ensures var isNew := StatusOf(status, n) != Some(Invalid);
            && status' == (if isNew then status[n := Invalid] else status)
            && invalidated' == (if isNew then invalidated + {n} else invalidated)
            && marked' == (if isNew then marked + 1 else marked)
  {
    status', invalidated', marked' := status, invalidated, marked;
    if StatusOf(status, n) != Some(Invalid) {
      status' := status[n := Invalid];
      marked' := marked + 1;
      invalidated' := invalidated + {n};
    }
  }

  /** The inner loop: mark every dependent and enqueue the unseen ones, in any order. */
  method Spread<N(==,!new)>(dependents: set<N>, status: map<N, DerivationStatus>, queue: seq<N>, seen: set<N>,
                            invalidated: set<N>, ghost region: set<N>)
    returns (status': map<N, DerivationStatus>, queue': seq<N>, seen': set<N>, invalidated': set<N>, marked: nat)
    requires Frontier(queue, seen, region)
    requires forall n :: n in invalidated ==> StatusOf(status, n) == Some(Invalid)
    ensures Marked(status, status', dependents)
    ensures Frontier(queue', seen', region) && seen' == seen + dependents
    ensures invalidated' == invalidated + Newly(status, dependents)
    ensures |invalidated'| == |invalidated| + marked
    ensures forall n :: n in invalidated' ==> StatusOf(status', n) == Some(Invalid)
  {
    hide Frontier, Marked, Newly, StatusOf, Next;
    status', queue', seen', invalidated', marked := status, queue, seen, invalidated, 0;
    var todo := dependents;
    ghost var done: set<N> := {};
    NothingMarked(status);
    while todo != {}
      invariant done + todo == dependents && done !! todo
      invariant Marked(status, status', done)
      invariant Frontier(queue', seen', region) && seen' == seen + done
      invariant invalidated' == invalidated + Newly(status, done)
      invariant |invalidated'| == |invalidated| + marked
      decreases |todo|
    {
      var n :| n in todo;
      NewlyAdd(status, status', done, n, invalidated);
      status', invalidated', marked := Mark(status', invalidated', n, marked);
      queue', seen' := Enqueue(queue', seen', n, region);
      todo, done := todo - {n}, done + {n};
    }
    assert done == dependents;
    AllInvalid(status, status', dependents, invalidated);
  }

  lemma NothingMarked<N(!new)>(status: map<N, DerivationStatus>)
    ensures Marked(status, status, {}) && Newly(status, {}) == {}
  {
  }

  lemma AllInvalid<N(!new)>(status: map<N, DerivationStatus>, status': map<N,
                     DerivationStatus>, touched: set<N>, invalidated: set<N>)
    requires Marked(status, status', touched)
    requires forall n :: n in invalidated ==> StatusOf(status, n) == Some(Invalid)
    ensures forall n :: n in invalidated + Newly(status, touched) ==> StatusOf(status', n) == Some(Invalid)
  {
    forall n | n in invalidated + Newly(status, touched) ensures StatusOf(status', n) == Some(Invalid) {
      assert StatusOf(status', n) == if n in touched then Some(Invalid) else StatusOf(status, n);
    }
  }

  /** One more dependent is marked: it is new exactly when its status was not invalid. */
  lemma NewlyAdd<N(!new)>(before: map<N, DerivationStatus>, now: map<N,
                   DerivationStatus>, done: set<N>, n: N, invalidated: set<N>)
    requires n !in done && Marked(before, now, done)
    requires forall m :: m in invalidated ==> StatusOf(before, m) == Some(Invalid)
    ensures Marked(before, if StatusOf(now, n) != Some(Invalid) then now[n := Invalid] else now, done + {n})
    ensures Newly(before, done + {n}) ==
            if StatusOf(now, n) != Some(Invalid) then Newly(before, done) + {n} else Newly(before, done)
    ensures StatusOf(now, n) != Some(Invalid) ==> n !in invalidated + Newly(before, done)
  {
    assert StatusOf(now, n) == StatusOf(before, n);
    var marked := if StatusOf(now, n) != Some(Invalid) then now[n := Invalid] else now;
    forall m ensures StatusOf(marked, m) == if m in done + {n} then Some(Invalid) else StatusOf(before, m) {
      assert StatusOf(now, m) == if m in done then Some(Invalid) else StatusOf(before, m);
    }
  }

  lemma NotQueued<N(!new)>(queue: seq<N>, n: N)
    ensures n in queue <==> n in Queued(queue)
  {
  }

  /** The breadth-first traversal; `region` is what it visited. */
  method Traverse<N(==,!new)>(table: map<N, set<N>>, status: map<N,
                    DerivationStatus>, roots: set<N>, ghost universe: set<N>)
    returns (status': map<N, DerivationStatus>, trace: DependencyTrace<N>, ghost region: set<N>)
    requires roots <= universe && forall d, n :: n in Next(table, d) ==> n in universe
    ensures forall x :: x in region <==> Reachable(table, roots, x)
    ensures Marked(status, status', Touched(table, region))
    ensures trace == DependencyTrace(|roots|, |region|, |Leaving(table, region)|,
                                     |Newly(status, Touched(table, region))|, 0, 0,
                                     Newly(status, Touched(table, region)))
  {
    hide Reachable, Frontier, Sound, Leaving, Touched, Newly, Marked, StatusOf, Next;
    var queue := ListOf(roots);
    var seen := roots;
    var visitedCount: nat, edges: nat, marked: nat := 0, 0, 0;
    var invalidated: set<N> := {};
    status', region := status, {};
    StartOf(table, status, roots, queue);
    while queue != []
      invariant Frontier(queue, seen, region)
      invariant roots <= seen && Sound(table, roots, region, seen) && seen <= universe
      invariant Marked(status, status', Touched(table, region))
      invariant invalidated == Newly(status, Touched(table, region)) && marked == |invalidated|
      invariant forall n :: n in invalidated ==> StatusOf(status', n) == Some(Invalid)
      invariant visitedCount == |region| && edges == |Leaving(table, region)|
      decreases |universe - region|
    {
      var current := queue[0];
      Advance(queue, seen, region, universe);
      queue := queue[1..];
      visitedCount := visitedCount + 1;
      var dependents := Next(table, current);
      edges := edges + |dependents|;
      ghost var before, earlier := status', region;
      LeavingAdd(table, region, current);
      SoundStep(table, roots, region, seen, current);
      region := region + {current};
      var more;
      status', queue, seen, invalidated, more := Spread(dependents, status', queue, seen, invalidated, region);
      marked := marked + more;
      TouchedAdd(table, earlier, current, status, before, status');
    }
    EmptyQueue(queue, seen, region);
    SoundAll(table, roots, region);
    trace := DependencyTrace(|roots|, visitedCount, edges, marked, 0, 0, invalidated);
  }

  /** Everything seen is reachable, and the visited region has been fully expanded. */
  ghost predicate Sound<N(!new)>(table: map<N, set<N>>, roots: set<N>, region: set<N>, seen: set<N>) {
    && (forall x :: x in seen ==> Reachable(table, roots, x))
    && (forall d :: d in region ==> Next(table, d) <= seen)
  }

  lemma SoundStep<N(!new)>(table: map<N, set<N>>, roots: set<N>, region: set<N>, seen: set<N>, d: N)
    requires Sound(table, roots, region, seen) && d in seen
    ensures Sound(table, roots, region + {d}, seen + Next(table, d))
  {
    hide Reachable;
    forall n | n in Next(table, d) ensures Reachable(table, roots, n) {
      ReachableStep(table, roots, d, n);
    }
  }

  lemma SoundAll<N(!new)>(table: map<N, set<N>>, roots: set<N>, region: set<N>)
    requires roots <= region && Sound(table, roots, region, region)
    ensures forall x :: x in region <==> Reachable(table, roots, x)
  {
    hide Reachable;
    forall x ensures x in region <==> Reachable(table, roots, x) {
      if Reachable(table, roots, x) {
        ReachableWithin(table, roots, region, x);
      }
    }
  }

  /** Taking the head of the queue moves it into the region. */
  lemma Advance<N(!new)>(queue: seq<N>, seen: set<N>, region: set<N>, universe: set<N>)
    requires Frontier(queue, seen, region) && queue != [] && seen <= universe
    ensures queue[0] in seen && queue[0] !in region
    ensures Frontier(queue[1..], seen, region + {queue[0]})
    ensures |universe - (region + {queue[0]})| < |universe - region|
  {
    hide Distinct, Queued;
    QueuedTail(queue);
    assert universe - region == universe - (region + {queue[0]}) + {queue[0]};
  }

  lemma EmptyQueue<N(!new)>(queue: seq<N>, seen: set<N>, region: set<N>)
    requires queue == [] && Frontier(queue, seen, region)
    ensures seen == region
  {
  }

  method ListOf<N(==,!new)>(roots: set<N>) returns (queue: seq<N>)
    ensures Distinct(queue) && Queued(queue) == roots
  {
    queue := [];
    var todo := roots;
    while todo != {}
      invariant todo <= roots && Distinct(queue) && Queued(queue) == roots - todo
      decreases |todo|
    {
      var n :| n in todo;
      NotQueued(queue, n);
      QueuedSnoc(queue, n);
      queue, todo := queue + [n], todo - {n};
    }
  }

  lemma StartOf<N(!new)>(table: map<N, set<N>>, status: map<N, DerivationStatus>, roots: set<N>, queue: seq<N>)
    requires Distinct(queue) && Queued(queue) == roots
    ensures Frontier(queue, roots, {}) && Sound(table, roots, {}, roots)
    ensures Touched(table, {}) == {} && Newly(status, {}) == {} && Leaving(table, {}) == {}
    ensures Marked(status, status, {})
  {
    hide Reachable;
    forall x | x in roots ensures Reachable(table, roots, x) {
      RootReachable(table, roots, x);
    }
  }

  lemma TouchedAdd<N(!new)>(table: map<N, set<N>>, nodes: set<N>, d: N, status: map<N, DerivationStatus>,
                            before: map<N, DerivationStatus>, after: map<N, DerivationStatus>)
    requires Marked(status, before, Touched(table, nodes)) && Marked(before, after, Next(table, d))
    ensures Touched(table, nodes + {d}) == Touched(table, nodes) + Next(table, d)
    ensures Marked(status, after, Touched(table, nodes + {d}))
    ensures Newly(status, Touched(table, nodes + {d})) ==
            Newly(status, Touched(table, nodes)) + Newly(before, Next(table, d))
  {
    var more := Touched(table, nodes + {d});
    assert more == Touched(table, nodes) + Next(table, d);
    forall n
      ensures n in Newly(status, more) <==> n in Newly(status, Touched(table, nodes)) + Newly(before, Next(table, d))
    {
      assert StatusOf(before, n) == if n in Touched(table, nodes) then Some(Invalid) else StatusOf(status, n);
    }
  }

  datatype Removal<!N> = Absent | Refused(live: set<N>) | Retired(edgesRemoved: nat)

  /** The dependents table is determined by the dependencies table. */
  lemma MirrorUnique<N(!new)>(dependencies: map<N, set<N>>, t: map<N, set<N>>, u: map<N, set<N>>)
    requires Mirrored(dependencies, t) && Mirrored(dependencies, u)
    ensures t == u
  {
    forall d ensures Next(t, d) == Next(u, d) {
      forall n ensures n in Next(t, d) <==> n in Next(u, d) {
        assert n in Next(t, d) <==> d in Next(dependencies, n);
      }
    }
    forall d ensures d in t <==> d in u {
      assert d in t <==> Next(t, d) != {};
      assert d in u <==> Next(u, d) != {};
    }
    forall d | d in t ensures t[d] == u[d] {
      assert Next(t, d) == Next(u, d);
    }
  }

  lemma Unregistered<N(!new)>(dependencies: map<N, set<N>>, dependents: map<N, set<N>>, table: map<N, set<N>>, node: N)
    requires Mirrored(dependencies, dependents) && Next(dependents, node) == {}
    requires forall d :: d in table ==> table[d] != {}
    requires forall d, n :: n in Next(table, d) <==>
               d != node && n in Next(dependents, d) && !(n == node && d in Next(dependencies, node))
    ensures Mirrored(dependencies - {node}, table)
  {
    forall d, n ensures n in Next(table, d) <==> d in Next(dependencies - {node}, n) {
      assert n in Next(dependents, d) <==> d in Next(dependencies, n);
    }
  }

  class DependencyGraph<N(==,!new)> {
    var dependencies: map<N, set<N>>
    var dependents: map<N, set<N>>
    var status: map<N, DerivationStatus>
    var kind: map<N, string>

    ghost predicate Valid()
      reads this
    {
      && Mirrored(dependencies, dependents)
      && status.Keys == dependencies.Keys == kind.Keys
    }

    constructor ()
      ensures Valid() && dependencies == map[] && status == map[]
    {
      dependencies, dependents, status, kind := map[], map[], map[], map[];
    }

    /** Registers or re-registers a derived node, patching both edge tables by difference. */
    method RegisterDerived(nodeId: N, nodeKind: string, deps: set<N>, nodeStatus: DerivationStatus)
      returns (trace: DependencyTrace<N>)
      requires Valid()
      modifies this
      ensures Valid()
      ensures dependencies == old(dependencies)[nodeId := deps]
      ensures status == old(status)[nodeId := nodeStatus] && kind == old(kind)[nodeId := nodeKind]
      ensures trace == DependencyTrace(0, 0, 0, 0, |deps - Next(old(dependencies), nodeId)|,
                                       |Next(old(dependencies), nodeId) - deps|, {})
    {
      var before := Next(dependencies, nodeId);
      var gone, added := before - deps, deps - before;
      var table := Unlink(dependents, gone, nodeId);
      table := Link(table, added, nodeId);
      Relinked(dependencies, dependents, table, nodeId, deps);
      dependents := table;
      dependencies := dependencies[nodeId := deps];
      kind := kind[nodeId := nodeKind];
      status := status[nodeId := nodeStatus];
      trace := DependencyTrace(0, 0, 0, 0, |added|, |gone|, {});
    }

    /** Retires a derived leaf; a node with live dependents is refused and nothing changes. */
    method RemoveDerived(nodeId: N) returns (removal: Removal<N>)
      requires Valid()
      modifies this
      ensures Valid()
      ensures removal.Absent? <==> nodeId !in old(status)
      ensures removal.Refused? <==> nodeId in old(status) && Next(old(dependents), nodeId) != {}
      ensures removal.Refused? ==> removal.live == Next(old(dependents), nodeId)
      ensures removal.Retired? ==>
                && removal.edgesRemoved == |Next(old(dependencies), nodeId)|
                && dependencies == old(dependencies) - {nodeId} && status == old(status) - {nodeId}
                && kind == old(kind) - {nodeId}
      ensures !removal.Retired? ==> dependencies == old(dependencies) && dependents == old(dependents)
                                    && status == old(status) && kind == old(kind)
    {
      if nodeId !in status {
        return Absent;
      }
      var live := Next(dependents, nodeId);
      if live != {} {
        return Refused(live);
      }
      var gone := Next(dependencies, nodeId);
      var table := Unlink(dependents, gone, nodeId);
      Unregistered(dependencies, dependents, table - {nodeId}, nodeId);
      dependents := table - {nodeId};
      dependencies := dependencies - {nodeId};
      status, kind := status - {nodeId}, kind - {nodeId};
      removal := Retired(|gone|);
    }

    /**
     Invalidates exactly the nodes downstream of the roots; the work is that of the reachable
     subgraph.
     */
    method InvalidateFrom(roots: set<N>) returns (trace: DependencyTrace<N>, ghost region: set<N>)
      requires Valid()
      modifies `status
      ensures Valid()
      ensures forall x :: x in region <==> Reachable(dependents, roots, x)
      ensures forall x :: StatusOf(status, x) ==
                if Downstream(dependents, roots, x) then Some(Invalid) else StatusOf(old(status), x)
      ensures forall x :: x in trace.invalidatedNodeIds <==>
                Downstream(dependents, roots, x) && StatusOf(old(status), x) != Some(Invalid)
      ensures trace == DependencyTrace(|roots|, |region|, |Leaving(dependents, region)|,
                                       |trace.invalidatedNodeIds|, 0, 0, trace.invalidatedNodeIds)
    {
      hide Reachable, Leaving;
      ghost var universe := roots + dependencies.Keys;
      forall d, n | n in Next(dependents, d) ensures n in dependencies {
        assert d in Next(dependencies, n);
      }
      status, trace, region := Traverse(dependents, status, roots, universe);
      forall x ensures x in Touched(dependents, region) <==> Downstream(dependents, roots, x) {
      }
      assert Touched(dependents, region) <= dependencies.Keys;
      MarkedKeys(old(status), status, Touched(dependents, region), dependencies, dependents);
    }
  }

  /** The two edge tables of a graph hold the same edges, and neither status nor kind is missing a node. */
  lemma EdgesExactly<N(!new)>(graph: DependencyGraph<N>, d: N, n: N)
    requires graph.Valid()
    ensures d in graph.dependents && n in graph.dependents[d] <==> n in graph.dependencies && d in graph.dependencies[n]
    ensures d in graph.dependents ==> graph.dependents[d] != {}
    ensures d in graph.dependencies <==> d in graph.status
    ensures d in graph.dependencies <==> d in graph.kind
  {
    assert n in Next(graph.dependents, d) <==> d in Next(graph.dependencies, n);
    if d in graph.dependents {
      assert Next(graph.dependents, d) != {};
    }
  }

  /**
   Registering a node and retiring it again: the retirement goes through exactly when nothing
   depends on the node, the node itself included, and then the node leaves no trace; a node
   that was new leaves both edge tables, statuses and kinds as they were.
   */
  method RegisterThenRetire<N(==,!new)>(graph: DependencyGraph<N>, node: N, kind: string, deps: set<N>,
                                        status: DerivationStatus)
    returns (removal: Removal<N>)
    requires graph.Valid()
    modifies graph
    ensures graph.Valid()
    ensures removal.Retired? <==> Next(old(graph.dependents), node) <= {node} && node !in deps
    ensures removal.Retired? ==> removal.edgesRemoved == |deps|
    ensures removal.Retired? ==>
              && graph.dependencies == old(graph.dependencies) - {node}
              && graph.status == old(graph.status) - {node} && graph.kind == old(graph.kind) - {node}
              && (node !in old(graph.status) ==>
                    && graph.dependencies == old(graph.dependencies) && graph.dependents == old(graph.dependents)
                    && graph.status == old(graph.status) && graph.kind == old(graph.kind))
  {
    hide Mirrored;
    ghost var before, above := graph.dependencies, graph.dependents;
    var _ := graph.RegisterDerived(node, kind, deps, status);
    DependentsAfter(before, above, graph.dependents, node, deps);
    Withdrawn(old(graph.dependencies), node, deps);
    Withdrawn(old(graph.status), node, status);
    Withdrawn(old(graph.kind), node, kind);
    removal := graph.RemoveDerived(node);
    if removal.Retired? && node !in before {
      MirrorUnique(before, graph.dependents, above);
    }
  }

  lemma Withdrawn<K, V>(m: map<K, V>, k: K, v: V)
    ensures m[k := v] - {k} == m - {k}
    ensures k !in m ==> m - {k} == m
  {
  }

  lemma DependentsAfter<N(!new)>(before: map<N, set<N>>, above: map<N, set<N>>, after: map<N,
                          set<N>>, node: N, deps: set<N>)
    requires Mirrored(before, above) && Mirrored(before[node := deps], after)
    ensures Next(after, node) == {} <==> Next(above, node) <= {node} && node !in deps
  {
    forall n ensures n in Next(after, node) <==> if n == node then node in deps else n in Next(above, node) {
      assert n in Next(after, node) <==> node in Next(before[node := deps], n);
      assert n in Next(above, node) <==> node in Next(before, n);
    }
  }

  lemma MarkedKeys<N(!new)>(before: map<N, DerivationStatus>, after: map<N, DerivationStatus>, touched: set<N>,
                            dependencies: map<N, set<N>>, dependents: map<N, set<N>>)
    requires Marked(before, after, touched) && touched <= before.Keys
    ensures after.Keys == before.Keys
  {
    forall n ensures n in after <==> n in before {
      assert StatusOf(after, n) == if n in touched then Some(Invalid) else StatusOf(before, n);
    }
  }

  /** Takes the node off the entries of its former dependencies, dropping entries that become empty. */
  method Unlink<N(==,!new)>(table: map<N, set<N>>, gone: set<N>, node: N) returns (table': map<N, set<N>>)
    ensures forall d, n :: n in Next(table', d) <==> n in Next(table, d) && !(n == node && d in gone)
    ensures (forall d :: d in table ==> table[d] != {}) ==> (forall d :: d in table' ==> table'[d] != {})
  {
    table' := table;
    var todo := gone;
    while todo != {}
      invariant todo <= gone
      invariant forall d, n :: n in Next(table', d) <==> n in Next(table, d) && !(n == node && d in gone - todo)
      invariant (forall d :: d in table ==> table[d] != {}) ==> (forall d :: d in table' ==> table'[d] != {})
      decreases |todo|
    {
      var d :| d in todo;
      table' := Discard(table', d, node);
      todo := todo - {d};
    }
  }

  method Discard<N(==,!new)>(table: map<N, set<N>>, d: N, node: N) returns (table': map<N, set<N>>)
    ensures forall e, n :: n in Next(table', e) <==> n in Next(table, e) && !(n == node && e == d)
    ensures (forall e :: e in table ==> table[e] != {}) ==> (forall e :: e in table' ==> table'[e] != {})
  {
    if d !in table {
      return table;
    }
    var row := table[d] - {node};
    table' := if row == {} then table - {d} else table[d := row];
    forall n ensures n in Next(table', d) <==> n in row {
      assert row == {} ==> n !in row;
    }
  }

  /** Puts the node on the entries of its new dependencies. */
  method Link<N(==,!new)>(table: map<N, set<N>>, added: set<N>, node: N) returns (table': map<N, set<N>>)
    ensures forall d, n :: n in Next(table', d) <==> n in Next(table, d) || (n == node && d in added)
    ensures (forall d :: d in table ==> table[d] != {}) ==> (forall d :: d in table' ==> table'[d] != {})
  {
    table' := table;
    var todo := added;
    while todo != {}
      invariant todo <= added
      invariant forall d, n :: n in Next(table', d) <==> n in Next(table, d) || (n == node && d in added - todo)
      invariant (forall d :: d in table ==> table[d] != {}) ==> (forall d :: d in table' ==> table'[d] != {})
      decreases |todo|
    {
      var d :| d in todo;
      table' := table'[d := Next(table', d) + {node}];
      todo := todo - {d};
    }
  }

  lemma Relinked<N(!new)>(dependencies: map<N, set<N>>, dependents: map<N, set<N>>, table: map<N, set<N>>,
                          node: N, deps: set<N>)
    requires Mirrored(dependencies, dependents)
    requires forall d :: d in table ==> table[d] != {}
    requires var before := Next(dependencies, node);
             forall d, n :: n in Next(table, d) <==>
               (n in Next(dependents, d) && !(n == node && d in before - deps)) || (n == node && d in deps - before)
    ensures Mirrored(dependencies[node := deps], table)
  {
    forall d, n ensures n in Next(table, d) <==> d in Next(dependencies[node := deps], n) {
      assert n in Next(dependents, d) <==> d in Next(dependencies, n);
    }
  }
}
