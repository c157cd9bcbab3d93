/** Concrete graphs and their longest walk weights, each proved from the
    definition of the longest walk, and what `LongestPath` returns on them. */
module Scenarios {
  import opened Seqs
  import opened Graphs
  import opened Longest

  /** A vector that is at least 0 on every node, relaxes every edge and is
      at most `d` everywhere, together with a walk of weight `d`, shows that
      `d` is the largest weight of any walk. */
  lemma Certificate(g: Graph, order: seq<nat>, dist: seq<Dist>, d: int, ns: seq<nat>, ks: seq<nat>)
    requires ValidGraph(g) && |dist| == |g| && InRange(order, |g|)
    requires forall v: nat :: v < |g| ==> v in order
    requires forall j :: 0 <= j < |order| ==> DistLe(Reached(0), dist[order[j]])
    requires RelaxedBefore(g, order, dist, |order|)
    requires forall v :: 0 <= v < |g| ==> DistLe(dist[v], Reached(d))
    requires IsPath(g, ns, ks) && Weight(g, ns, ks) == d
    ensures IsMaxPathWeight(g, d)
  {
    forall ns': seq<nat>, ks': seq<nat> | IsPath(g, ns', ks') ensures Weight(g, ns', ks') <= d {
      assert RunsThrough(ns', order) by {
        assert ns'[0] < |g|;
        forall i | 0 <= i < |ns'| - 1 ensures ns'[i] in order {
          assert ns'[i] < |g|;
        }
      }
      PathBound(g, order, dist, ns', ks');
      assert DistLe(dist[ns'[|ns'| - 1]], Reached(d));
    }
  }

  /** The largest walk weight is unique, so two computations of it agree. */
  lemma MaxPathWeightUnique(g: Graph, a: int, b: int)
    requires IsMaxPathWeight(g, a) && IsMaxPathWeight(g, b)
    ensures a == b
  {
    var ns, ks :| IsPath(g, ns, ks) && Weight(g, ns, ks) == a;
    var ns', ks' :| IsPath(g, ns', ks') && Weight(g, ns', ks') == b;
    assert a <= b && b <= a;
  }

  /** A graph in which every edge goes from a smaller node to a larger one
      has no cycle: the identity order sends every edge forward. */
  lemma IncreasingEdgesAcyclic(g: Graph)
    requires forall u, k :: 0 <= u < |g| && 0 <= k < |g[u]| ==> u < g[u][k].0
    ensures Acyclic(g)
  {
    var order := Iota(|g|);
    forall i, j, k | 0 <= i < |order| && 0 <= j < |order| && 0 <= k < |g[order[i]]| && g[order[i]][k].0 == order[j]
      ensures i < j
    {
      assert order[i] == i && order[j] == j;
    }
    forall v: nat | v < |g| ensures v in order {
      assert order[v] == v;
    }
    ForwardOrderAcyclic(g, order);
  }

  /** With no edges at all, every walk is a single node and the answer is 0. */
  lemma NoEdges(g: Graph)
    requires |g| > 0 && forall u :: 0 <= u < |g| ==> g[u] == []
    ensures ValidGraph(g) && Acyclic(g) && IsMaxPathWeight(g, 0)
  {
    TrivialPath(g, 0);
  }

  /** Four nodes: 0 -> 1 (5), 0 -> 2 (3), 1 -> 3 (6), 2 -> 3 (4). */
  function Diamond(): Graph {
    [[(1, 5), (2, 3)], [(3, 6)], [(3, 4)], []]
  }

  /** The longest walk of `Diamond` is 0 -> 1 -> 3, of weight 11. */
  lemma DiamondLongest()
    ensures ValidGraph(Diamond()) && Acyclic(Diamond()) && IsMaxPathWeight(Diamond(), 11)
  {
    IncreasingEdgesAcyclic(Diamond());
    DiamondMaxWeight();
  }

  /** The certificate for `DiamondLongest`. */
  lemma DiamondMaxWeight()
    ensures ValidGraph(Diamond()) && IsMaxPathWeight(Diamond(), 11)
  {
    var order: seq<nat> := [0, 1, 2, 3];
    DiamondRelaxed();
    DiamondWalk();
    forall v: nat | v < 4 ensures v in order {
      assert order[v] == v;
    }
    Certificate(Diamond(), order, DiamondDist(), 11, [0, 1, 3], [0, 0]);
  }

  /** The distances the relaxation of `Diamond` ends with. */
  function DiamondDist(): seq<Dist> {
    [Reached(0), Reached(5), Reached(3), Reached(11)]
  }

  /** ... relax every edge of `Diamond`. */
  lemma DiamondRelaxed()
    ensures ValidGraph(Diamond())
    ensures RelaxedBefore(Diamond(), [0, 1, 2, 3], DiamondDist(), 4)
  {
    var g, order, dist := Diamond(), [0, 1, 2, 3], DiamondDist();
    forall j, k | 0 <= j < 4 && 0 <= k < |g[order[j]]| ensures EdgeRelaxed(g, dist, order[j], k) {
      assert order[j] == j;
    }
  }

  /** The walk 0 -> 1 -> 3 of `Diamond` weighs 11. */
  lemma DiamondWalk()
    ensures IsPath(Diamond(), [0, 1, 3], [0, 0]) && Weight(Diamond(), [0, 1, 3], [0, 0]) == 11
  {
    var g, ns, ks := Diamond(), [0, 1, 3], [0, 0];
    assert IsPath(g, ns, ks);
    assert Weight(g, ns[..2], ks[..1]) == 5 by {
      assert ns[..2][..1] == [0] && ks[..1][..0] == [];
    }
  }

  /** Two nodes and one edge 0 -> 1 of weight -2. */
  function NegativeEdge(): Graph {
    [[(1, -2)], []]
  }

  /** Taking the edge of `NegativeEdge` loses, so the answer is a
      single-node walk, of weight 0. */
  lemma NegativeEdgeLongest()
    ensures ValidGraph(NegativeEdge()) && Acyclic(NegativeEdge()) && IsMaxPathWeight(NegativeEdge(), 0)
  {
    IncreasingEdgesAcyclic(NegativeEdge());
    NegativeEdgeMaxWeight();
  }

  /** The certificate for `NegativeEdgeLongest`. */
  lemma NegativeEdgeMaxWeight()
    ensures ValidGraph(NegativeEdge()) && IsMaxPathWeight(NegativeEdge(), 0)
  {
    var order: seq<nat> := [0, 1];
    NegativeEdgeRelaxed();
    TrivialPath(NegativeEdge(), 0);
    forall v: nat | v < 2 ensures v in order {
      assert order[v] == v;
    }
    Certificate(NegativeEdge(), order, [Reached(0), Reached(0)], 0, [0], []);
  }

  /** Distance 0 on both nodes already relaxes the edge of weight -2. */
  lemma NegativeEdgeRelaxed()
    ensures ValidGraph(NegativeEdge())
    ensures RelaxedBefore(NegativeEdge(), [0, 1], [Reached(0), Reached(0)], 2)
  {
    var g, order, dist := NegativeEdge(), [0, 1], [Reached(0), Reached(0)];
    forall j, k | 0 <= j < 2 && 0 <= k < |g[order[j]]| ensures EdgeRelaxed(g, dist, order[j], k) {
      assert order[j] == j;
    }
  }

  /** A node with an edge to itself is a cycle, whatever the weight. */
  lemma SelfLoopIsCycle(w: int)
    ensures ValidGraph([[(0, w)]]) && !Acyclic([[(0, w)]])
  {
    var g: Graph := [[(0, w)]];
    assert IsPath(g, [0, 0], [0]);
  }

  /** The chain 0 -> 1 -> ... -> n-1 with every edge of weight `w`. */
  function Chain(n: nat, w: int): (g: Graph)
    ensures |g| == n && ValidGraph(g)
    ensures forall i :: 0 <= i < n - 1 ==> g[i] == [(i + 1, w)]
    ensures n > 0 ==> g[n - 1] == []
  {
    seq(n, i requires 0 <= i < n => if i + 1 < n then [((i + 1) as nat, w)] else [])
  }

  /** The nodes `0 .. n-1` in increasing order. */
  function Iota(n: nat): (s: seq<nat>)
    ensures |s| == n && forall i :: 0 <= i < n ==> s[i] == i
  {
    seq(n, i requires 0 <= i < n => i as nat)
  }

  /** `m` copies of edge number 0: the only edge of each chain node. */
  function Zeros(m: nat): (s: seq<nat>)
    ensures |s| == m && forall i :: 0 <= i < m ==> s[i] == 0
  {
    seq(m, _ => 0)
  }

  /** The first `m + 1` nodes of the chain, walked along edge 0 of each. */
  lemma ChainPrefixPath(n: nat, w: int, m: nat)
    requires m < n
    ensures IsPath(Chain(n, w), Iota(n)[..m + 1], Zeros(m))
  {
    var g: Graph, ns: seq<nat>, ks: seq<nat> := Chain(n, w), Iota(n)[..m + 1], Zeros(m);
    forall i | 0 <= i < |ks| ensures ks[i] < |g[ns[i]]| && g[ns[i]][ks[i]].0 == ns[i + 1] {
      assert ns[i] == i && ns[i + 1] == i + 1;
      assert g[i] == [(i + 1, w)];
    }
  }

  /** Walking the first `m` edges of the chain weighs `m * w`. */
  lemma {:induction false} ChainPrefixWeight(n: nat, w: int, m: nat)
    requires m < n
    ensures IsPath(Chain(n, w), Iota(n)[..m + 1], Zeros(m))
    ensures Weight(Chain(n, w), Iota(n)[..m + 1], Zeros(m)) == m * w
  {
    ChainPrefixPath(n, w, m);
    if m > 0 {
      var g: Graph, ns: seq<nat>, ks: seq<nat> := Chain(n, w), Iota(n)[..m + 1], Zeros(m);
      ChainPrefixWeight(n, w, m - 1);
      assert ns[..m] == Iota(n)[..m];
      assert ks[..m - 1] == Zeros(m - 1);
      assert g[ns[m - 1]][ks[m - 1]].1 == w by {
        assert ns[m - 1] == m - 1 && g[m - 1] == [(m, w)];
      }
      ProductStep(m, w);
    }
  }

  lemma ProductStep(m: nat, w: int)
    requires m > 0
    ensures m * w == (m - 1) * w + w
  {
  }

  /** Every edge of the chain climbs by one node, so it has no cycle. */
  lemma ChainAcyclic(n: nat, w: int)
    ensures Acyclic(Chain(n, w))
  {
    var g: Graph := Chain(n, w);
    forall u, k | 0 <= u < |g| && 0 <= k < |g[u]| ensures u < g[u][k].0 {
      assert u + 1 < n && g[u] == [(u + 1, w)];
    }
    IncreasingEdgesAcyclic(g);
  }

  /** For a weight `w >= 0`, the chain of `n` nodes has longest walk `(n - 1) * w`. */
  lemma ChainLongest(n: nat, w: int)
    requires n > 0 && w >= 0
    ensures Acyclic(Chain(n, w)) && IsMaxPathWeight(Chain(n, w), (n - 1) * w)
  {
    ChainAcyclic(n, w);
    ChainMaxWeight(n, w);
  }

  /** The certificate for `ChainLongest`: distance `i * w` at node `i`. */
  lemma ChainMaxWeight(n: nat, w: int)
    requires n > 0 && w >= 0
    ensures IsMaxPathWeight(Chain(n, w), (n - 1) * w)
  {
    var g, order := Chain(n, w), Iota(n);
    var dist := seq(n, i requires 0 <= i < n => Reached(i * w));
    forall j | 0 <= j < n ensures DistLe(Reached(0), dist[order[j]]) && DistLe(dist[j], Reached((n - 1) * w)) {
      NonNegativeProduct(j, w);
      ProductMonotone(j, n - 1, w);
    }
    assert RelaxedBefore(g, order, dist, n) by {
      forall j, k | 0 <= j < n && 0 <= k < |g[order[j]]| ensures EdgeRelaxed(g, dist, order[j], k) {
        assert j + 1 < n && k == 0;
        assert (j + 1) * w == j * w + w;
      }
    }
    forall v: nat | v < n ensures v in order {
      assert order[v] == v;
    }
    ChainPrefixWeight(n, w, n - 1);
    assert Iota(n)[..n] == Iota(n);
    Certificate(g, order, dist, (n - 1) * w, Iota(n), Zeros(n - 1));
  }

  /** For a weight `w <= 0` no edge pays off: the chain of `n` nodes has
      longest walk 0, a single node, rather than `(n - 1) * w`. */
  lemma ChainNonPositive(n: nat, w: int)
    requires n > 0 && w <= 0
    ensures Acyclic(Chain(n, w)) && IsMaxPathWeight(Chain(n, w), 0)
  {
    ChainAcyclic(n, w);
    ChainZeroWeight(n, w);
  }

  /** The certificate for `ChainNonPositive`: distance 0 everywhere. */
  lemma ChainZeroWeight(n: nat, w: int)
    requires n > 0 && w <= 0
    ensures IsMaxPathWeight(Chain(n, w), 0)
  {
    var g, order := Chain(n, w), Iota(n);
    var dist := seq(n, _ => Reached(0));
    assert RelaxedBefore(g, order, dist, n) by {
      forall j, k | 0 <= j < n && 0 <= k < |g[order[j]]| ensures EdgeRelaxed(g, dist, order[j], k) {
        assert j + 1 < n && k == 0;
      }
    }
    forall v: nat | v < n ensures v in order {
      assert order[v] == v;
    }
    TrivialPath(g, 0);
    Certificate(g, order, dist, 0, [0], []);
  }

  lemma NonNegativeProduct(a: nat, w: int)
    requires w >= 0
    ensures a * w >= 0
  {
  }

  lemma ProductMonotone(a: nat, b: nat, w: int)
    requires a <= b && w >= 0
    ensures a * w <= b * w
  {
    assert b * w == a * w + (b - a) * w;
    NonNegativeProduct(b - a, w);
  }

  // ---------------------------------------------------------------------
  // What `longest_path` returns on them

  /** `longest_path` of the diamond is 11. */
  method DiamondAnswer() returns (r: Dist)
    ensures r == Reached(11)
  {
    r := LongestPath(Diamond());
    DiamondLongest();
    MaxPathWeightUnique(Diamond(), r.d, 11);
  }

  /** `longest_path` of the single edge of weight -2 is 0. */
  method NegativeEdgeAnswer() returns (r: Dist)
    ensures r == Reached(0)
  {
    r := LongestPath(NegativeEdge());
    NegativeEdgeLongest();
    MaxPathWeightUnique(NegativeEdge(), r.d, 0);
  }

  /** `longest_path` of the chain of `n` nodes with uniform weight `w` is
      `(n - 1) * w` when `w >= 0` and 0 otherwise. */
  method ChainAnswer(n: nat, w: int) returns (r: Dist)
    requires n > 0
    ensures r == Reached(if w >= 0 then (n - 1) * w else 0)
  {
    r := LongestPath(Chain(n, w));
    if w >= 0 {
      ChainLongest(n, w);
      MaxPathWeightUnique(Chain(n, w), r.d, (n - 1) * w);
    } else {
      ChainNonPositive(n, w);
      MaxPathWeightUnique(Chain(n, w), r.d, 0);
    }
  }
}
