/** Facts about sequences of node indices: distinctness, range and how many
    distinct indices fit below a bound. */
module Seqs {

  /** No index occurs twice in `s`. */
  predicate Distinct(s: seq<nat>) {
    forall i, j :: 0 <= i < j < |s| ==> s[i] != s[j]
  }

  /** Every element of `s` is a node index below `n`. */
  predicate InRange(s: seq<nat>, n: nat) {
    forall i :: 0 <= i < |s| ==> s[i] < n
  }

  /** The node indices `0 .. n-1` as a set. */
  function Range(n: nat): (r: set<nat>)
    ensures forall v: nat :: v in r <==> v < n
    ensures |r| == n
  {
    if n == 0 then {} else
      var s := Range(n - 1);
      assert n - 1 !in s;
      s + {n - 1}
  }

  /** The elements of `s` as a set. */
  function Elements(s: seq<nat>): (r: set<nat>)
    ensures forall v :: v in r <==> v in s
  {
    set v | v in s
  }

  lemma {:induction false} DistinctCard(s: seq<nat>)
    requires Distinct(s)
    ensures |Elements(s)| == |s|
  {
    if |s| > 0 {
      DistinctCard(s[1..]);
      assert Elements(s) == {s[0]} + Elements(s[1..]);
      assert s[0] !in Elements(s[1..]);
    }
  }

  lemma SubsetCard(a: set<nat>, b: set<nat>)
    requires a <= b
    ensures |a| <= |b|
    ensures |a| == |b| ==> a == b
  {
    assert b == a + (b - a);
  }

  /** A sequence of distinct indices below `n` has at most `n` elements. */
  lemma DistinctBound(s: seq<nat>, n: nat)
    requires Distinct(s) && InRange(s, n)
    ensures |s| <= n
  {
    DistinctCard(s);
    SubsetCard(Elements(s), Range(n));
  }

  /** ... and if it has exactly `n` elements it contains every index below `n`. */
  lemma FullCovers(s: seq<nat>, n: nat)
    requires Distinct(s) && InRange(s, n) && |s| == n
    ensures forall v: nat :: v < n ==> v in s
  {
    DistinctCard(s);
    SubsetCard(Elements(s), Range(n));
  }

  /** A sequence of distinct indices that contains every index below `n`
      has at least `n` elements. */
  lemma CoverBound(s: seq<nat>, n: nat)
    requires Distinct(s)
    requires forall v: nat :: v < n ==> v in s
    ensures |s| >= n
  {
    DistinctCard(s);
    SubsetCard(Range(n), Elements(s));
  }
}
