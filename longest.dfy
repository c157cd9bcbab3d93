/** The longest path of a weighted graph by dynamic programming over a
    topological order: seed every ordered node at 0, relax every edge in
    order, and take the largest distance. */
module Longest {
  import opened Seqs
  import opened Graphs
  import opened TopoSort

  /** A tentative distance; `Unreached` plays the part of minus infinity. */
  datatype Dist = Unreached | Reached(d: int)

  /** `a <= b`, with `Unreached` below every number. */
  predicate DistLe(a: Dist, b: Dist) {
    match a
    case Unreached => true
    case Reached(x) => b.Reached? && x <= b.d
  }

  /** `a < b`, as minus infinity compares with itself and with numbers. */
  predicate DistLt(a: Dist, b: Dist) {
    match b
    case Unreached => false
    case Reached(y) => a.Unreached? || a.d < y
  }

  /** `a + w`: minus infinity plus a number stays minus infinity. */
  function AddWeight(a: Dist, w: int): Dist {
    match a
    case Unreached => Unreached
    case Reached(x) => Reached(x + w)
  }

  /** The comparisons order the distances totally, with minus infinity at
      the bottom, and adding a weight keeps the order. */
  lemma DistOrder(a: Dist, b: Dist, c: Dist, w: int)
    ensures DistLe(Unreached, a) && DistLe(a, a)
    ensures DistLe(a, b) || DistLe(b, a)
    ensures DistLt(a, b) <==> !DistLe(b, a)
    ensures DistLe(a, b) && DistLe(b, a) ==> a == b
    ensures DistLe(a, b) && DistLe(b, c) ==> DistLe(a, c)
    ensures DistLe(a, b) ==> DistLe(AddWeight(a, w), AddWeight(b, w))
    ensures AddWeight(Unreached, w) == Unreached
  {
  }

  /** The maximum of a non-empty list, scanned from the left: an element
      replaces the running maximum only when it is strictly larger. */
  function MaxDist(ds: seq<Dist>): (r: Dist)
    requires |ds| > 0
    ensures r in ds
    ensures forall i :: 0 <= i < |ds| ==> DistLe(ds[i], r)
  {
    if |ds| == 1 then ds[0]
    else
      var m := MaxDist(ds[..|ds| - 1]);
      assert forall i :: 0 <= i < |ds| - 1 ==> ds[i] == ds[..|ds| - 1][i];
      if DistLt(m, ds[|ds| - 1]) then ds[|ds| - 1] else m
  }

  // ---------------------------------------------------------------------
  // What a distance vector means

  /** Some walk of weight `d` ends at `v`. */
  ghost predicate Witnessed(g: Graph, v: nat, d: int) {
    exists ns: seq<nat>, ks: seq<nat> :: IsPath(g, ns, ks) && ns[|ns| - 1] == v && Weight(g, ns, ks) == d
  }

  /** Some walk of `g` has weight `d`. */
  ghost predicate HasWalkOfWeight(g: Graph, d: int) {
    exists ns: seq<nat>, ks: seq<nat> :: IsPath(g, ns, ks) && Weight(g, ns, ks) == d
  }

  /** Every reached distance is the weight of a walk ending at its node. */
  ghost predicate Sound(g: Graph, dist: seq<Dist>) {
    forall v :: 0 <= v < |dist| && dist[v].Reached? ==> Witnessed(g, v, dist[v].d)
  }

  /** Edge `k` of node `u` cannot improve the distance of its target. */
  predicate EdgeRelaxed(g: Graph, dist: seq<Dist>, u: nat, k: nat)
    requires ValidGraph(g) && |dist| == |g| && u < |g| && k < |g[u]|
  {
    DistLe(AddWeight(dist[u], g[u][k].1), dist[g[u][k].0])
  }

  /** Every edge leaving one of the first `i` nodes of `order` is relaxed. */
  predicate RelaxedBefore(g: Graph, order: seq<nat>, dist: seq<Dist>, i: nat)
    requires ValidGraph(g) && |dist| == |g| && InRange(order, |g|) && i <= |order|
  {
    forall j, k :: 0 <= j < i && 0 <= k < |g[order[j]]| ==> EdgeRelaxed(g, dist, order[j], k)
  }

  /** The walk starts in `order` and every node it leaves is in `order`
      (only its last node may lie outside). */
  predicate RunsThrough(ns: seq<nat>, order: seq<nat>) {
    && |ns| > 0
    && ns[0] in order
    && forall i :: 0 <= i < |ns| - 1 ==> ns[i] in order
  }

  /** The correctness argument of DAG dynamic programming: if every node of
      `order` has distance at least 0 and every edge leaving a node of
      `order` is relaxed, then every walk that runs through `order` weighs
      no more than the distance of its last node. */
  lemma {:induction false} PathBound(g: Graph, order: seq<nat>, dist: seq<Dist>, ns: seq<nat>, ks: seq<nat>)
    requires ValidGraph(g) && |dist| == |g| && InRange(order, |g|)
    requires forall j :: 0 <= j < |order| ==> DistLe(Reached(0), dist[order[j]])
    requires RelaxedBefore(g, order, dist, |order|)
    requires IsPath(g, ns, ks) && RunsThrough(ns, order)
    ensures DistLe(Reached(Weight(g, ns, ks)), dist[ns[|ns| - 1]])
    decreases |ks|
  {
    if |ks| == 0 {
      var j :| 0 <= j < |order| && order[j] == ns[0];
    } else {
      var m := |ks| - 1;
      var ns', ks' := ns[..m + 1], ks[..m];
      assert IsPath(g, ns', ks');
      assert RunsThrough(ns', order) by {
        assert ns'[0] == ns[0];
        forall i | 0 <= i < |ns'| - 1 ensures ns'[i] in order {
          assert ns'[i] == ns[i];
        }
      }
      PathBound(g, order, dist, ns', ks');
      var j :| 0 <= j < |order| && order[j] == ns[m];
      assert EdgeRelaxed(g, dist, order[j], ks[m]);
    }
  }

  // ---------------------------------------------------------------------
  // The algorithm

  /** Seed every node of `order` at 0, relax the edges of the nodes in the
      sequence `order` gives, and return the largest distance, which is
      `Unreached` exactly when `order` is empty. The result is always the
      weight of some walk; when `order` sends every edge among its nodes
      forward, no walk that runs through `order` weighs more. */
  method CalculateLongestPath(g: Graph, order: seq<nat>) returns (r: Dist)
    requires ValidGraph(g) && |g| > 0 && InRange(order, |g|)
    ensures r.Reached? <==> |order| > 0
    ensures r.Reached? ==> r.d >= 0 && HasWalkOfWeight(g, r.d)
    ensures EdgesForward(g, order) ==>
      forall ns: seq<nat>, ks: seq<nat> :: IsPath(g, ns, ks) && RunsThrough(ns, order) ==>
        DistLe(Reached(Weight(g, ns, ks)), r)
  {
    var n := |g|;
    var dist := SeedDistances(n, order);
    ghost var seeded := dist[..];
    forall v | 0 <= v < n && dist[v].Reached? ensures Witnessed(g, v, dist[v].d) {
      TrivialPath(g, v);
    }
    RelaxInOrder(g, order, dist, seeded);
    r := MaxDist(dist[..]);
    MaxOfRelaxed(g, order, seeded, dist[..], r);
  }

  /** The seeding loop: every distance starts unreached, then every node
      of `order` is set to 0 (a repeated node is left at 0). */
  method SeedDistances(n: nat, order: seq<nat>) returns (dist: array<Dist>)
    requires InRange(order, n)
    ensures fresh(dist) && dist.Length == n
    ensures forall v :: 0 <= v < n ==> dist[v] == if v in order then Reached(0) else Unreached
  {
    dist := new Dist[n](_ => Unreached);
    for i := 0 to |order|
      invariant forall v :: 0 <= v < n ==> dist[v] == if v in order[..i] then Reached(0) else Unreached
    {
      var node := order[i];
      if dist[node] == Unreached {
        dist[node] := Reached(0);
      }
      assert order[..i + 1] == order[..i] + [node];
    }
    assert order[..|order|] == order;
  }

  /** The relaxation loop: the edges of the nodes of `order`, node by node
      in that sequence. It keeps the relaxation state from the seeded
      vector to the end of the order. */
  method RelaxInOrder(g: Graph, order: seq<nat>, dist: array<Dist>, ghost seeded: seq<Dist>)
    requires ValidGraph(g) && InRange(order, |g|) && dist.Length == |g|
    requires Relaxing(g, order, seeded, dist[..], 0)
    modifies dist
    ensures Relaxing(g, order, seeded, dist[..], |order|)
    ensures |order| == 0 ==> dist[..] == old(dist[..])
    ensures forall v :: 0 <= v < |g| ==> DistLe(old(dist[v]), dist[v])
    ensures forall v :: 0 <= v < |g| && !TargetOf(g, order, |order|, v) ==> dist[v] == old(dist[v])
  {
    for i := 0 to |order|
      invariant Relaxing(g, order, seeded, dist[..], i)
      invariant |order| == 0 ==> dist[..] == old(dist[..])
      invariant forall v :: 0 <= v < |g| ==> DistLe(old(dist[v]), dist[v])
      invariant forall v :: 0 <= v < |g| && !TargetOf(g, order, i, v) ==> dist[v] == old(dist[v])
    {
      RelaxEdgesOf(g, order, dist, seeded, i);
    }
  }

  /** Some edge leaving one of the first `i` nodes of `order` ends at `v`. */
  predicate TargetOf(g: Graph, order: seq<nat>, i: nat, v: nat)
    requires InRange(order, |g|) && i <= |order|
  {
    exists j, k :: 0 <= j < i && 0 <= k < |g[order[j]]| && g[order[j]][k].0 == v
  }

  /** The inner loop: relax every edge leaving `order[i]`. Only targets
      of those edges change, none of them goes down, and unless `order[i]`
      has an edge to itself all its edges end up relaxed. */
  method RelaxEdgesOf(g: Graph, order: seq<nat>, dist: array<Dist>, ghost seeded: seq<Dist>, i: nat)
    requires ValidGraph(g) && InRange(order, |g|) && dist.Length == |g| && i < |order|
    requires Relaxing(g, order, seeded, dist[..], i)
    modifies dist
    ensures Relaxing(g, order, seeded, dist[..], i + 1)
    ensures forall v :: 0 <= v < |g| ==> DistLe(old(dist[v]), dist[v])
    ensures forall v :: 0 <= v < |g| && (forall k :: 0 <= k < |g[order[i]]| ==> g[order[i]][k].0 != v) ==>
      dist[v] == old(dist[v])
    ensures !HasEdgeTo(g, order[i], order[i]) ==>
      forall k :: 0 <= k < |g[order[i]]| ==> EdgeRelaxed(g, dist[..], order[i], k)
    ensures !HasEdgeTo(g, order[i], order[i]) ==>
      forall v :: 0 <= v < |g| && dist[v] != old(dist[v]) ==>
        exists k :: 0 <= k < |g[order[i]]| && g[order[i]][k].0 == v &&
          dist[v] == AddWeight(old(dist[order[i]]), g[order[i]][k].1)
  {
    var node := order[i];
    for k := 0 to |g[node]|
      invariant RelaxingEdges(g, order, seeded, dist[..], i, k)
      invariant forall v :: 0 <= v < |g| ==> DistLe(old(dist[v]), dist[v])
      invariant forall v :: 0 <= v < |g| && (forall k' :: 0 <= k' < k ==> g[node][k'].0 != v) ==>
        dist[v] == old(dist[v])
      invariant !HasEdgeTo(g, node, node) ==> forall k' :: 0 <= k' < k ==> EdgeRelaxed(g, dist[..], node, k')
      invariant !HasEdgeTo(g, node, node) ==> dist[node] == old(dist[node])
      invariant !HasEdgeTo(g, node, node) ==>
        forall v :: 0 <= v < |g| && dist[v] != old(dist[v]) ==>
          exists k' :: 0 <= k' < k && g[node][k'].0 == v && dist[v] == AddWeight(old(dist[node]), g[node][k'].1)
    {
      var (neighbor, weight) := g[node][k];
      ghost var before := dist[..];
      if DistLt(dist[neighbor], AddWeight(dist[node], weight)) {
        dist[neighbor] := AddWeight(dist[node], weight);
        RelaxStep(g, order, seeded, before, dist[..], i, k);
      }
      OwnEdgesRelaxed(g, node, k, before, dist[..]);
    }
  }

  /** Node `u` has an edge to `v`. */
  predicate HasEdgeTo(g: Graph, u: nat, v: nat)
    requires u < |g|
  {
    exists k :: 0 <= k < |g[u]| && g[u][k].0 == v
  }

  /** One step of the inner loop over the edges of `u`, when `u` has no edge
      to itself: `u`'s own distance stays, so its edges relaxed so far stay
      relaxed, and edge `k` is relaxed after the step. */
  lemma OwnEdgesRelaxed(g: Graph, u: nat, k: nat, before: seq<Dist>, after: seq<Dist>)
    requires ValidGraph(g) && u < |g| && k < |g[u]| && |before| == |g|
    requires after == (if DistLt(before[g[u][k].0], AddWeight(before[u], g[u][k].1))
                       then before[g[u][k].0 := AddWeight(before[u], g[u][k].1)] else before)
    requires !HasEdgeTo(g, u, u) ==> forall k' :: 0 <= k' < k ==> EdgeRelaxed(g, before, u, k')
    ensures !HasEdgeTo(g, u, u) ==> forall k' :: 0 <= k' < k + 1 ==> EdgeRelaxed(g, after, u, k')
  {
    var v, w := g[u][k].0, g[u][k].1;
    if !HasEdgeTo(g, u, u) {
      assert v != u;
      assert after[u] == before[u];
      forall t | 0 <= t < |g| ensures DistLe(before[t], after[t]) {
        DistOrder(before[t], AddWeight(before[u], w), before[t], w);
      }
      forall k' | 0 <= k' < k + 1 ensures EdgeRelaxed(g, after, u, k') {
        var t := g[u][k'].0;
        if k' < k {
          assert EdgeRelaxed(g, before, u, k');
          DistOrder(AddWeight(before[u], g[u][k'].1), before[t], after[t], w);
        } else {
          DistOrder(before[v], AddWeight(before[u], w), after[v], w);
        }
      }
    }
  }

  /** What the largest entry of the relaxed distance vector says about walks. */
  lemma MaxOfRelaxed(g: Graph, order: seq<nat>, seeded: seq<Dist>, dist: seq<Dist>, r: Dist)
    requires ValidGraph(g) && |g| > 0 && InRange(order, |g|)
    requires |seeded| == |g|
    requires forall v :: 0 <= v < |g| ==> seeded[v] == if v in order then Reached(0) else Unreached
    requires Relaxing(g, order, seeded, dist, |order|)
    requires |order| == 0 ==> dist == seeded
    requires r in dist && forall v :: 0 <= v < |dist| ==> DistLe(dist[v], r)
    ensures r.Reached? <==> |order| > 0
    ensures r.Reached? ==> r.d >= 0 && HasWalkOfWeight(g, r.d)
    ensures EdgesForward(g, order) ==>
      forall ns: seq<nat>, ks: seq<nat> :: IsPath(g, ns, ks) && RunsThrough(ns, order) ==>
        DistLe(Reached(Weight(g, ns, ks)), r)
  {
    if |order| > 0 {
      assert DistLe(dist[order[0]], r);
    }
    if r.Reached? {
      var m :| 0 <= m < |dist| && dist[m] == r;
    }
    if EdgesForward(g, order) {
      forall ns: seq<nat>, ks: seq<nat> | IsPath(g, ns, ks) && RunsThrough(ns, order)
        ensures DistLe(Reached(Weight(g, ns, ks)), r)
      {
        PathBound(g, order, dist, ns, ks);
        assert DistLe(dist[ns[|ns| - 1]], r);
      }
    }
  }

  /** The state of the relaxation before node `order[i]` is processed:
      every distance is at least its seeded value and is the weight of a
      walk, and, when `order` sends edges forward, the edges of the nodes
      before position `i` are relaxed. */
  ghost predicate Relaxing(g: Graph, order: seq<nat>, seeded: seq<Dist>, dist: seq<Dist>, i: nat)
    requires ValidGraph(g) && InRange(order, |g|) && i <= |order|
  {
    && |seeded| == |dist| == |g|
    && (forall v :: 0 <= v < |g| ==> DistLe(seeded[v], dist[v]))
    && Sound(g, dist)
    && (EdgesForward(g, order) ==> RelaxedBefore(g, order, dist, i))
  }

  /** ... and, within node `order[i]`, its first `k` edges are relaxed too. */
  ghost predicate RelaxingEdges(g: Graph, order: seq<nat>, seeded: seq<Dist>, dist: seq<Dist>, i: nat, k: nat)
    requires ValidGraph(g) && InRange(order, |g|) && i < |order| && k <= |g[order[i]]|
  {
    && Relaxing(g, order, seeded, dist, i)
    && (EdgesForward(g, order) ==> forall k' :: 0 <= k' < k ==> EdgeRelaxed(g, dist, order[i], k'))
  }

  /** Relaxing edge `k` of `order[i]` keeps the relaxation state: the
      target only grows, its new distance extends a walk to `order[i]` by
      the edge, and in an order that sends edges forward the raised target
      is none of the nodes whose edges have been relaxed so far. */
  lemma RelaxStep(g: Graph, order: seq<nat>, seeded: seq<Dist>, before: seq<Dist>, after: seq<Dist>, i: nat, k: nat)
    requires ValidGraph(g) && InRange(order, |g|) && i < |order| && k < |g[order[i]]|
    requires RelaxingEdges(g, order, seeded, before, i, k)
    requires DistLt(before[g[order[i]][k].0], AddWeight(before[order[i]], g[order[i]][k].1))
    requires after == before[g[order[i]][k].0 := AddWeight(before[order[i]], g[order[i]][k].1)]
    ensures RelaxingEdges(g, order, seeded, after, i, k + 1)
    ensures forall v :: 0 <= v < |g| ==> DistLe(before[v], after[v])
  {
    var u, v, w := order[i], g[order[i]][k].0, g[order[i]][k].1;
    assert before[u].Reached?;
    var ns, ks :| IsPath(g, ns, ks) && ns[|ns| - 1] == u && Weight(g, ns, ks) == before[u].d;
    Extend(g, ns, ks, k);
    assert Witnessed(g, v, after[v].d);
    if EdgesForward(g, order) {
      forall j | 0 <= j <= i ensures order[j] != v {
        assert g[order[i]][k].0 == v;
      }
      assert after[u] == before[u];
      forall j, k' | 0 <= j < i && 0 <= k' < |g[order[j]]|
        ensures EdgeRelaxed(g, after, order[j], k')
      {
        assert EdgeRelaxed(g, before, order[j], k');
        assert after[order[j]] == before[order[j]];
      }
      forall k' | 0 <= k' < k + 1 ensures EdgeRelaxed(g, after, u, k') {
        if k' < k {
          assert EdgeRelaxed(g, before, u, k');
        }
      }
    }
  }

  /** `longest_path`: Kahn's order, then the relaxation. On a graph with no
      cycle the result is the largest weight of any walk; on any graph it
      is the weight of some walk, at least 0, unless every node has an
      edge coming in, when the order is empty and the result is `Unreached`. */
  method LongestPath(g: Graph) returns (r: Dist)
    requires ValidGraph(g) && |g| > 0
    ensures Acyclic(g) ==> r.Reached? && IsMaxPathWeight(g, r.d)
    ensures r.Reached? ==> r.d >= 0 && HasWalkOfWeight(g, r.d)
    ensures r == Unreached <==> forall v: nat :: v < |g| ==> InDegree(g, v) > 0
  {
    var order := TopologicalSort(g);
    r := CalculateLongestPath(g, order);
    if |order| > 0 {
      InDegreeZero(g, order[0]);
    }
    if Acyclic(g) {
      PredecessorsFirstForward(g, order);
      forall ns: seq<nat>, ks: seq<nat> | IsPath(g, ns, ks) ensures Weight(g, ns, ks) <= r.d {
        assert RunsThrough(ns, order) by {
          assert ns[0] < |g|;
          forall i | 0 <= i < |ns| - 1 ensures ns[i] in order {
            assert ns[i] < |g|;
          }
        }
      }
    }
  }
}
