/** Weighted directed graphs as adjacency lists, walks through them and
    their weights, acyclicity, in-degree counts, and orders of the nodes. */
module Graphs {
  import opened Seqs

  /** An outgoing edge: the target node and the weight of the edge. */
  type Edge = (nat, int)

  /** `g[u]` lists the edges leaving node `u`; the nodes are `0 .. |g|-1`. */
  type Graph = seq<seq<Edge>>

  /** Every edge targets a node of the graph. */
  predicate ValidGraph(g: Graph) {
    forall u, k :: 0 <= u < |g| && 0 <= k < |g[u]| ==> g[u][k].0 < |g|
  }

  /** `ns` is a walk that leaves `ns[i]` along its edge number `ks[i]` to
      reach `ns[i + 1]`; a single node with no edge is a walk too. */
  predicate IsPath(g: Graph, ns: seq<nat>, ks: seq<nat>) {
    && |ns| == |ks| + 1
    && InRange(ns, |g|)
    && forall i :: 0 <= i < |ks| ==> ks[i] < |g[ns[i]]| && g[ns[i]][ks[i]].0 == ns[i + 1]
  }

  /** The sum of the weights of the edges a walk takes. */
  function Weight(g: Graph, ns: seq<nat>, ks: seq<nat>): int
    requires IsPath(g, ns, ks)
    decreases |ks|
  {
    if |ks| == 0 then 0
    else Weight(g, ns[..|ks|], ks[..|ks| - 1]) + g[ns[|ks| - 1]][ks[|ks| - 1]].1
  }

  /** No walk that takes at least one edge comes back to where it started. */
  ghost predicate Acyclic(g: Graph) {
    forall ns: seq<nat>, ks: seq<nat> :: IsPath(g, ns, ks) && |ks| > 0 ==> ns[0] != ns[|ns| - 1]
  }

  /** `d` is the largest weight of any walk in `g`, and some walk has it. */
  ghost predicate IsMaxPathWeight(g: Graph, d: int) {
    && (exists ns: seq<nat>, ks: seq<nat> :: IsPath(g, ns, ks) && Weight(g, ns, ks) == d)
    && (forall ns: seq<nat>, ks: seq<nat> :: IsPath(g, ns, ks) ==> Weight(g, ns, ks) <= d)
  }

  /** The single-node walk at `v` has weight 0. */
  lemma TrivialPath(g: Graph, v: nat)
    requires v < |g|
    ensures IsPath(g, [v], []) && Weight(g, [v], []) == 0
  {
  }

  /** A walk extended by one edge of its last node is a walk whose weight
      grows by that edge's weight. */
  lemma Extend(g: Graph, ns: seq<nat>, ks: seq<nat>, k: nat)
    requires ValidGraph(g) && IsPath(g, ns, ks)
    requires k < |g[ns[|ns| - 1]]|
    ensures IsPath(g, ns + [g[ns[|ns| - 1]][k].0], ks + [k])
    ensures Weight(g, ns + [g[ns[|ns| - 1]][k].0], ks + [k]) == Weight(g, ns, ks) + g[ns[|ns| - 1]][k].1
  {
    var ns', ks' := ns + [g[ns[|ns| - 1]][k].0], ks + [k];
    assert ns'[..|ks'|] == ns;
    assert ks'[..|ks'| - 1] == ks;
  }

  // ---------------------------------------------------------------------
  // In-degrees

  /** The number of edges in `es` that go to `v`. */
  function EdgesInto(es: seq<Edge>, v: nat): nat {
    if es == [] then 0 else (if es[0].0 == v then 1 else 0) + EdgesInto(es[1..], v)
  }

  /** The number of edges into `v` that leave a node below `n` which is not in `done`. */
  function IncomingFrom(g: Graph, done: seq<nat>, n: nat, v: nat): nat
    requires n <= |g|
  {
    if n == 0 then 0
    else IncomingFrom(g, done, n - 1, v) + (if n - 1 in done then 0 else EdgesInto(g[n - 1], v))
  }

  /** The in-degree of `v` once the nodes in `done` are taken out of the graph. */
  function Remaining(g: Graph, done: seq<nat>, v: nat): nat {
    IncomingFrom(g, done, |g|, v)
  }

  /** The number of edges of the whole graph that go to `v`. */
  function InDegree(g: Graph, v: nat): nat {
    Remaining(g, [], v)
  }

  /** `EdgesInto` is positive exactly when some edge of `es` goes to `v`. */
  lemma {:induction false} EdgesIntoPositive(es: seq<Edge>, v: nat)
    ensures EdgesInto(es, v) > 0 <==> exists k :: 0 <= k < |es| && es[k].0 == v
  {
    if es != [] {
      EdgesIntoPositive(es[1..], v);
      if es[0].0 != v && EdgesInto(es, v) == 0 {
        forall k | 0 <= k < |es| ensures es[k].0 != v {
          if k > 0 { assert es[k] == es[1..][k - 1]; }
        }
      }
      if EdgesInto(es[1..], v) > 0 {
        var k :| 0 <= k < |es[1..]| && es[1..][k].0 == v;
        assert es[k + 1].0 == v;
      }
    }
  }

  /** The counted in-degree is 0 exactly when every edge into `v` leaves
      `done` or a node at or above `n`. */
  lemma {:induction false} IncomingZero(g: Graph, done: seq<nat>, n: nat, v: nat)
    requires n <= |g|
    ensures IncomingFrom(g, done, n, v) == 0 <==>
      forall u, k :: 0 <= u < n && 0 <= k < |g[u]| && g[u][k].0 == v ==> u in done
  {
    if n > 0 {
      IncomingZero(g, done, n - 1, v);
      EdgesIntoPositive(g[n - 1], v);
    }
  }

  /** Taking node `u` out of the graph removes exactly its own edges into `v`. */
  lemma {:induction false} IncomingRemove(g: Graph, done: seq<nat>, u: nat, n: nat, v: nat)
    requires n <= |g| && u !in done
    ensures IncomingFrom(g, done, n, v)
         == IncomingFrom(g, done + [u], n, v) + (if u < n then EdgesInto(g[u], v) else 0)
  {
    if n > 0 {
      IncomingRemove(g, done, u, n - 1, v);
    }
  }

  /** The number of edges into `v` is 0 exactly when no edge goes to `v`. */
  lemma InDegreeZero(g: Graph, v: nat)
    ensures InDegree(g, v) == 0 <==>
      forall u, k :: 0 <= u < |g| && 0 <= k < |g[u]| ==> g[u][k].0 != v
  {
    IncomingZero(g, [], |g|, v);
  }

  // ---------------------------------------------------------------------
  // Cycles

  /** Some node of `r` has an edge into `x`. */
  ghost predicate HasPredecessorIn(g: Graph, r: set<nat>, x: nat) {
    exists u, k :: u in r && 0 <= u < |g| && 0 <= k < |g[u]| && g[u][k].0 == x
  }

  /** If every node of `r` has an edge coming from `r`, there are walks of
      every length inside `r`, built backwards from any node of `r`. */
  lemma {:induction false} BackWalk(g: Graph, r: set<nat>, m: nat) returns (ns: seq<nat>, ks: seq<nat>)
    requires r != {} && forall x :: x in r ==> x < |g|
    requires forall x {:trigger HasPredecessorIn(g, r, x)} :: x in r ==> HasPredecessorIn(g, r, x)
    ensures IsPath(g, ns, ks) && |ks| == m
    ensures forall i :: 0 <= i < |ns| ==> ns[i] in r
  {
    if m == 0 {
      var x :| x in r;
      ns, ks := [x], [];
    } else {
      var ns', ks' := BackWalk(g, r, m - 1);
      assert HasPredecessorIn(g, r, ns'[0]);
      var u, k :| u in r && 0 <= u < |g| && 0 <= k < |g[u]| && g[u][k].0 == ns'[0];
      Prepend(g, ns', ks', u, k);
      ns, ks := [u] + ns', [k] + ks';
      forall i | 0 <= i < |ns| ensures ns[i] in r {
        if i > 0 { assert ns[i] == ns'[i - 1]; }
      }
    }
  }

  /** A walk preceded by an edge into its first node is a walk. */
  lemma Prepend(g: Graph, ns: seq<nat>, ks: seq<nat>, u: nat, k: nat)
    requires IsPath(g, ns, ks)
    requires u < |g| && k < |g[u]| && g[u][k].0 == ns[0]
    ensures IsPath(g, [u] + ns, [k] + ks)
  {
    var ns', ks' := [u] + ns, [k] + ks;
    forall i | 0 <= i < |ks'| ensures ks'[i] < |g[ns'[i]]| && g[ns'[i]][ks'[i]].0 == ns'[i + 1] {
      if i > 0 { assert ns'[i] == ns[i - 1] && ks'[i] == ks[i - 1] && ns'[i + 1] == ns[i]; }
    }
  }

  /** A walk that visits some node twice contains a cycle. */
  lemma RepeatIsCycle(g: Graph, ns: seq<nat>, ks: seq<nat>, i: nat, j: nat)
    requires IsPath(g, ns, ks)
    requires i < j < |ns| && ns[i] == ns[j]
    ensures !Acyclic(g)
  {
    var cn, ck := ns[i..j + 1], ks[i..j];
    forall t | 0 <= t < |ck| ensures ck[t] < |g[cn[t]]| && g[cn[t]][ck[t]].0 == cn[t + 1] {
      assert cn[t] == ns[i + t] && ck[t] == ks[i + t] && cn[t + 1] == ns[i + t + 1];
    }
    assert IsPath(g, cn, ck) && |ck| > 0 && cn[0] == cn[|cn| - 1];
  }

  /** A non-empty set of nodes in which every node has an edge coming from
      the set holds a cycle. */
  lemma PredecessorsInsideMeansCycle(g: Graph, r: set<nat>)
    requires r != {} && forall x :: x in r ==> x < |g|
    requires forall x {:trigger HasPredecessorIn(g, r, x)} :: x in r ==> HasPredecessorIn(g, r, x)
    ensures !Acyclic(g)
  {
    var ns, ks := BackWalk(g, r, |g|);
    if Distinct(ns) {
      DistinctBound(ns, |g|);
      assert false;
    }
    var i, j :| 0 <= i < j < |ns| && ns[i] == ns[j];
    RepeatIsCycle(g, ns, ks, i, j);
  }

  // ---------------------------------------------------------------------
  // Orders

  /** Every edge between two nodes of `order` goes from an earlier position
      to a strictly later one. */
  predicate EdgesForward(g: Graph, order: seq<nat>)
    requires InRange(order, |g|)
  {
    forall i, j, k ::
      (0 <= i < |order| && 0 <= j < |order| && 0 <= k < |g[order[i]]| && g[order[i]][k].0 == order[j])
      ==> i < j
  }

  /** Every node with an edge into a node of `order` occurs earlier in `order`. */
  predicate PredecessorsFirst(g: Graph, order: seq<nat>) {
    forall j, u, k ::
      (0 <= j < |order| && 0 <= u < |g| && 0 <= k < |g[u]| && g[u][k].0 == order[j])
      ==> u in order[..j]
  }

  /** An order with every predecessor first sends every edge among its nodes forward. */
  lemma PredecessorsFirstForward(g: Graph, order: seq<nat>)
    requires InRange(order, |g|) && Distinct(order) && PredecessorsFirst(g, order)
    ensures EdgesForward(g, order)
  {
    forall i, j, k | 0 <= i < |order| && 0 <= j < |order| && 0 <= k < |g[order[i]]| &&
      g[order[i]][k].0 == order[j]
      ensures i < j
    {
      assert order[i] in order[..j];
      var i' :| 0 <= i' < j && order[..j][i'] == order[i];
      assert order[i'] == order[i];
    }
  }

  /** Along a walk whose every node is in an order sending edges forward,
      walking forward moves strictly later in the order. */
  lemma {:induction false} WalkClimbs(g: Graph, order: seq<nat>, ns: seq<nat>, ks: seq<nat>, p: nat, q: nat)
    requires InRange(order, |g|) && EdgesForward(g, order) && IsPath(g, ns, ks)
    requires |ks| > 0
    requires p < |order| && order[p] == ns[0]
    requires q < |order| && order[q] == ns[|ns| - 1]
    requires forall i :: 0 <= i < |ns| ==> ns[i] in order
    ensures p < q
    decreases |ks|
  {
    var last := |ks| - 1;
    if last > 0 {
      var m :| 0 <= m < |order| && order[m] == ns[last];
      assert g[order[m]][ks[last]].0 == order[q];
      var ns', ks' := ns[..last + 1], ks[..last];
      assert IsPath(g, ns', ks');
      WalkClimbs(g, order, ns', ks', p, m);
    } else {
      assert g[order[p]][ks[0]].0 == order[q];
    }
  }

  /** A graph has no cycle if some order of all its nodes sends every edge forward. */
  lemma ForwardOrderAcyclic(g: Graph, order: seq<nat>)
    requires InRange(order, |g|) && EdgesForward(g, order)
    requires forall v: nat :: v < |g| ==> v in order
    ensures Acyclic(g)
  {
    forall ns: seq<nat>, ks: seq<nat> | IsPath(g, ns, ks) && |ks| > 0
      ensures ns[0] != ns[|ns| - 1]
    {
      forall i | 0 <= i < |ns| ensures ns[i] in order {
        assert ns[i] < |g|;
      }
      var p :| 0 <= p < |order| && order[p] == ns[0];
      if ns[0] == ns[|ns| - 1] {
        // the walk would climb from position p to position p
        WalkClimbs(g, order, ns, ks, p, p);
      }
    }
  }
}
