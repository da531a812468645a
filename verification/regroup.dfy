/** Sums over labelled points, taken point by point or cluster by
    cluster. Both k-medoids and k-means add up a distance from every point
    to its cluster's representative, and both argue about that total once
    per point (the labelling step) and once per cluster (the update step).
    The terms are function values, so the same lemmas serve both. */
module Regroup {
  import opened Clustering

  /** Term e(i, labels[i]) of every point i, added up. */
  function PointTotal(e: (nat, nat) -> real, labels: seq<nat>): real
  {
    if |labels| == 0 then 0.0
    else
      var n := |labels| - 1;
      PointTotal(e, labels[..n]) + e(n, labels[n])
  }

  /** Term e(i, j) of every row i listed in idx, added up. */
  function MemberTotal(e: (nat, nat) -> real, idx: seq<nat>, j: nat): real
  {
    if |idx| == 0 then 0.0
    else
      var n := |idx| - 1;
      MemberTotal(e, idx[..n], j) + e(idx[n], j)
  }

  /** The members of every cluster, as `labels` has them. */
  function Groups(labels: seq<nat>): nat -> seq<nat>
  {
    j => Members(labels, j)
  }

  /** Clusters 0..K-1: the terms of each cluster's members g(j), added up. */
  function ClusterTotal(e: (nat, nat) -> real, g: nat -> seq<nat>, K: nat): real
  {
    if K == 0 then 0.0
    else ClusterTotal(e, g, K - 1) + MemberTotal(e, g(K - 1), K - 1)
  }

  /** Adding point i to cluster l alone adds its term, if l is counted. */
  lemma {:induction false} ClusterTotalSnoc(e: (nat, nat) -> real, g: nat -> seq<nat>, g': nat -> seq<nat>,
                                            K: nat, i: nat, l: nat)
    requires forall j :: g(j) == g'(j) + (if j == l then [i] else [])
    ensures ClusterTotal(e, g, K) == ClusterTotal(e, g', K) + (if l < K then e(i, l) else 0.0)
  {
    if K > 0 {
      var j := K - 1;
      ClusterTotalSnoc(e, g, g', j, i, l);
      if j == l {
        assert g(j) == g'(j) + [i];
        assert (g'(j) + [i])[..|g'(j)|] == g'(j);
      } else {
        assert g(j) == g'(j);
      }
    }
  }

  lemma {:induction false} ClusterTotalEmpty(e: (nat, nat) -> real, g: nat -> seq<nat>, K: nat)
    requires forall j :: g(j) == []
    ensures ClusterTotal(e, g, K) == 0.0
  {
    if K > 0 {
      ClusterTotalEmpty(e, g, K - 1);
    }
  }

  /** Summing point by point equals summing cluster by cluster. */
  lemma {:induction false} PointsByCluster(e: (nat, nat) -> real, labels: seq<nat>, K: nat)
    requires forall i :: 0 <= i < |labels| ==> labels[i] < K
    ensures PointTotal(e, labels) == ClusterTotal(e, Groups(labels), K)
  {
    if |labels| == 0 {
      assert forall j :: Groups(labels)(j) == [];
      ClusterTotalEmpty(e, Groups(labels), K);
    } else {
      var n := |labels| - 1;
      PointsByCluster(e, labels[..n], K);
      assert forall j :: Groups(labels)(j) == Groups(labels[..n])(j) + (if j == labels[n] then [n] else []);
      ClusterTotalSnoc(e, Groups(labels), Groups(labels[..n]), K, n, labels[n]);
    }
  }

  lemma {:induction false} ClusterTotalMonotone(e: (nat, nat) -> real, e': (nat, nat) -> real, g: nat -> seq<nat>, K: nat)
    requires forall j :: 0 <= j < K ==> MemberTotal(e', g(j), j) <= MemberTotal(e, g(j), j)
    ensures ClusterTotal(e', g, K) <= ClusterTotal(e, g, K)
  {
    if K > 0 {
      ClusterTotalMonotone(e, e', g, K - 1);
    }
  }

  /** Giving every point a term no larger does not raise the total. */
  lemma {:induction false} PointTotalMonotone(e: (nat, nat) -> real, labels: seq<nat>, labels': seq<nat>)
    requires |labels| == |labels'|
    requires forall i :: 0 <= i < |labels| ==> e(i, labels[i]) <= e(i, labels'[i])
    ensures PointTotal(e, labels) <= PointTotal(e, labels')
  {
    if |labels| > 0 {
      var n := |labels| - 1;
      PointTotalMonotone(e, labels[..n], labels'[..n]);
    }
  }
}
