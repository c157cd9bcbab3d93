/** Kahn's algorithm: order the nodes so that every edge points forward,
    taking a node only once all the edges into it have been used up. */
module TopoSort {
  import opened Seqs
  import opened Graphs

  /** The first loop of Kahn's algorithm: for every node, the number of
      edges of the graph that point to it. */
  method CountInDegrees(g: Graph) returns (indegree: array<int>)
    requires ValidGraph(g)
    ensures fresh(indegree) && indegree.Length == |g|
    ensures forall v :: 0 <= v < |g| ==> indegree[v] == InDegree(g, v)
  {
    indegree := new int[|g|](_ => 0);
    for u := 0 to |g|
      invariant forall v :: 0 <= v < |g| ==> indegree[v] == IncomingFrom(g, [], u, v)
    {
      for k := 0 to |g[u]|
        invariant forall v :: 0 <= v < |g| ==>
          indegree[v] + EdgesInto(g[u][k..], v) == IncomingFrom(g, [], u, v) + EdgesInto(g[u], v)
      {
        var v := g[u][k].0;
        assert g[u][k..][1..] == g[u][k + 1..];
        indegree[v] := indegree[v] + 1;
      }
    }
  }

  /** Every node that has an edge into `seen[i]` occurs before position `i`
      of `seen` and has already been put into `done`. */
  ghost predicate PredecessorsIn(g: Graph, seen: seq<nat>, done: seq<nat>) {
    forall i, u, k ::
      (0 <= i < |seen| && 0 <= u < |g| && 0 <= k < |g[u]| && g[u][k].0 == seen[i])
      ==> u in seen[..i] && u in done
  }

  /** Moving one more node into `done` keeps `PredecessorsIn`. */
  lemma PredecessorsInGrow(g: Graph, seen: seq<nat>, done: seq<nat>, u: nat)
    requires PredecessorsIn(g, seen, done)
    ensures PredecessorsIn(g, seen, done + [u])
  {
    forall i, w, k | 0 <= i < |seen| && 0 <= w < |g| && 0 <= k < |g[w]| && g[w][k].0 == seen[i]
      ensures w in seen[..i] && w in done + [u]
    {
      assert w in done;
    }
  }

  /** Discovering a node all of whose predecessors are done keeps `PredecessorsIn`. */
  lemma PredecessorsInAppend(g: Graph, seen: seq<nat>, done: seq<nat>, v: nat)
    requires PredecessorsIn(g, seen, done)
    requires |done| <= |seen| && done == seen[..|done|]
    requires forall u, k :: 0 <= u < |g| && 0 <= k < |g[u]| && g[u][k].0 == v ==> u in done
    ensures PredecessorsIn(g, seen + [v], done)
  {
    var seen' := seen + [v];
    forall i, w, k | 0 <= i < |seen'| && 0 <= w < |g| && 0 <= k < |g[w]| && g[w][k].0 == seen'[i]
      ensures w in seen'[..i] && w in done
    {
      if i < |seen| {
        assert seen'[..i] == seen[..i];
        assert seen'[i] == seen[i];
      } else {
        assert w in done;
        var j :| 0 <= j < |done| && done[j] == w;
        assert seen'[..i][j] == w;
      }
    }
  }

  /** The bookkeeping of Kahn's algorithm: `seen` is every node ever queued
      (the output so far followed by the queue), with no repeats; a node has
      been queued exactly when its counter is 0; and every node with an edge
      into a queued node was output before it was queued. */
  ghost predicate KahnState(g: Graph, indegree: seq<int>, topo: seq<nat>, queue: seq<nat>, seen: seq<nat>) {
    && |indegree| == |g|
    && seen == topo + queue
    && Distinct(seen) && InRange(seen, |g|)
    && (forall v: nat :: v < |g| ==> (v in seen <==> indegree[v] == 0))
    && PredecessorsIn(g, seen, topo)
  }

  /** Kahn's algorithm. The result lists distinct nodes, each after all
      the nodes with an edge into it; a node is left out only while some
      edge into it comes from a node that was left out too. So the result
      holds every node of the graph exactly when the graph has no cycle,
      and otherwise it silently leaves out the nodes on or behind a cycle. */
  method TopologicalSort(g: Graph) returns (order: seq<nat>)
    requires ValidGraph(g)
    ensures InRange(order, |g|) && Distinct(order)
    ensures PredecessorsFirst(g, order)
    ensures forall v: nat :: v < |g| && InDegree(g, v) == 0 ==> v in order
    ensures forall v: nat :: v < |g| && v !in order ==> Remaining(g, order, v) > 0
    ensures |order| <= |g|
    ensures Acyclic(g) <==> |order| == |g|
    ensures Acyclic(g) ==> forall v: nat :: v < |g| ==> v in order
  {
    var n := |g|;
    var indegree := CountInDegrees(g);
    var queue := ZeroInDegreeNodes(indegree);
    var topo: seq<nat> := [];
    ghost var seen: seq<nat> := queue;
    forall i, u, k | 0 <= i < |seen| && 0 <= u < n && 0 <= k < |g[u]| && g[u][k].0 == seen[i]
      ensures false
    {
      InDegreeZero(g, seen[i]);
    }
    while queue != []
      invariant KahnState(g, indegree[..], topo, queue, seen)
      invariant forall v: nat :: v < n ==> indegree[v] == Remaining(g, topo, v)
      invariant forall v: nat :: v < n && InDegree(g, v) == 0 ==> v in seen
      decreases n - |topo|
    {
      PopFront(g, indegree[..], topo, queue, seen);
      var u := queue[0];
      queue := queue[1..];
      topo := topo + [u];
      ghost var seen0 := seen;
      queue, seen := ReleaseSuccessors(g, u, indegree, queue, topo, seen);
      forall v: nat | v < n && InDegree(g, v) == 0 ensures v in seen {
        assert v in seen0;
      }
    }
    assert seen == topo;
    order := topo;
    forall v: nat | v < n && v !in order ensures Remaining(g, order, v) > 0 {
      assert indegree[v] != 0;
    }
    KahnOutcome(g, order);
  }

  /** The nodes whose counter is 0, in increasing order: the queue Kahn's
      algorithm starts from. */
  method ZeroInDegreeNodes(indegree: array<int>) returns (queue: seq<nat>)
    ensures Distinct(queue) && InRange(queue, indegree.Length)
    ensures forall i, j :: 0 <= i < j < |queue| ==> queue[i] < queue[j]
    ensures forall v: nat :: v < indegree.Length ==> (v in queue <==> indegree[v] == 0)
  {
    queue := [];
    for i := 0 to indegree.Length
      invariant Distinct(queue) && InRange(queue, i)
      invariant forall p, q :: 0 <= p < q < |queue| ==> queue[p] < queue[q]
      invariant forall v: nat :: v < indegree.Length ==> (v in queue <==> v < i && indegree[v] == 0)
    {
      if indegree[i] == 0 {
        queue := queue + [i];
      }
    }
  }

  /** Taking the front node `u` off the queue and appending it to the
      output keeps the bookkeeping, except that the counters now also
      include the edges leaving `u`, which are still to be used up. */
  lemma PopFront(g: Graph, indegree: seq<int>, topo: seq<nat>, queue: seq<nat>, seen: seq<nat>)
    requires ValidGraph(g) && KahnState(g, indegree, topo, queue, seen) && queue != []
    requires forall v: nat :: v < |g| ==> indegree[v] == Remaining(g, topo, v)
    ensures queue[0] < |g| && |topo| < |g|
    ensures KahnState(g, indegree, topo + [queue[0]], queue[1..], seen)
    ensures forall v: nat :: v < |g| ==>
      indegree[v] == Remaining(g, topo + [queue[0]], v) + EdgesInto(g[queue[0]], v)
  {
    var u := queue[0];
    DistinctBound(seen, |g|);
    assert u == seen[|topo|] && u < |g|;
    assert u !in topo by {
      forall j | 0 <= j < |topo| ensures topo[j] != u {
        assert topo[j] == seen[j];
      }
    }
    forall v: nat | v < |g|
      ensures indegree[v] == Remaining(g, topo + [u], v) + EdgesInto(g[u], v)
    {
      IncomingRemove(g, topo, u, |g|, v);
    }
    PredecessorsInGrow(g, seen, topo, u);
    assert seen == (topo + [u]) + queue[1..];
  }

  /** The inner loop of Kahn's algorithm, run after `u` is output: use up
      every edge leaving `u`, and queue each successor whose counter drops
      to 0. Nothing already queued is reordered. */
  method ReleaseSuccessors(g: Graph, u: nat, indegree: array<int>, queue: seq<nat>,
                           ghost topo: seq<nat>, ghost seen: seq<nat>)
    returns (queue': seq<nat>, ghost seen': seq<nat>)
    requires ValidGraph(g) && u < |g| && indegree.Length == |g|
    requires KahnState(g, indegree[..], topo, queue, seen)
    requires forall v: nat :: v < |g| ==> indegree[v] == Remaining(g, topo, v) + EdgesInto(g[u], v)
    modifies indegree
    ensures KahnState(g, indegree[..], topo, queue', seen')
    ensures forall v: nat :: v < |g| ==> indegree[v] == Remaining(g, topo, v)
    ensures |queue| <= |queue'| && queue'[..|queue|] == queue
    ensures |seen| <= |seen'| && seen'[..|seen|] == seen
  {
    queue', seen' := queue, seen;
    for k := 0 to |g[u]|
      invariant KahnState(g, indegree[..], topo, queue', seen')
      invariant forall v: nat :: v < |g| ==> indegree[v] == Remaining(g, topo, v) + EdgesInto(g[u][k..], v)
      invariant |queue| <= |queue'| && queue'[..|queue|] == queue
      invariant |seen| <= |seen'| && seen'[..|seen|] == seen
    {
      var v := g[u][k].0;
      ghost var before := indegree[..];
      indegree[v] := indegree[v] - 1;
      ReleaseEdge(g, u, k, before, indegree[..], topo, queue', seen');
      if indegree[v] == 0 {
        queue' := queue' + [v];
        seen' := seen' + [v];
      }
    }
  }

  /** Using up edge `k` of `u` lowers its target's counter by one; the
      bookkeeping then holds with the target queued exactly when its
      counter has reached 0. */
  lemma ReleaseEdge(g: Graph, u: nat, k: nat, before: seq<int>, after: seq<int>,
                    topo: seq<nat>, queue: seq<nat>, seen: seq<nat>)
    requires ValidGraph(g) && u < |g| && k < |g[u]|
    requires KahnState(g, before, topo, queue, seen)
    requires forall v: nat :: v < |g| ==> before[v] == Remaining(g, topo, v) + EdgesInto(g[u][k..], v)
    requires after == before[g[u][k].0 := before[g[u][k].0] - 1]
    ensures forall v: nat :: v < |g| ==> after[v] == Remaining(g, topo, v) + EdgesInto(g[u][k + 1..], v)
    ensures after[g[u][k].0] == 0 ==> KahnState(g, after, topo, queue + [g[u][k].0], seen + [g[u][k].0])
    ensures after[g[u][k].0] != 0 ==> KahnState(g, after, topo, queue, seen)
  {
    var v := g[u][k].0;
    assert g[u][k..][1..] == g[u][k + 1..];
    assert before[v] > 0;
    if after[v] == 0 {
      IncomingZero(g, topo, |g|, v);
      PredecessorsInAppend(g, seen, topo, v);
      assert seen + [v] == topo + (queue + [v]);
    }
  }

  /** What is left when Kahn's algorithm stops: if every node left out has
      an edge from a node that was also left out, then the order holds
      every node exactly when the graph has no cycle. */
  lemma KahnOutcome(g: Graph, order: seq<nat>)
    requires ValidGraph(g)
    requires InRange(order, |g|) && Distinct(order) && PredecessorsFirst(g, order)
    requires forall v: nat :: v < |g| && v !in order ==> Remaining(g, order, v) > 0
    ensures |order| <= |g|
    ensures Acyclic(g) <==> |order| == |g|
    ensures Acyclic(g) ==> forall v: nat :: v < |g| ==> v in order
  {
    var n := |g|;
    DistinctBound(order, n);
    if exists v: nat :: v < n && v !in order {
      // every node left out still has an edge from another node left out
      var r := Range(n) - Elements(order);
      var w: nat :| w < n && w !in order;
      assert w in r;
      forall x | x in r ensures HasPredecessorIn(g, r, x) {
        IncomingZero(g, order, n, x);
        var u, k :| 0 <= u < n && 0 <= k < |g[u]| && g[u][k].0 == x && u !in order;
        assert u in r;
      }
      PredecessorsInsideMeansCycle(g, r);
    } else {
      CoverBound(order, n);
    }
    if |order| == n {
      FullCovers(order, n);
      PredecessorsFirstForward(g, order);
      ForwardOrderAcyclic(g, order);
    }
  }
}
