/** Why the k-medoids loops can stop on a small fall in J: over a matrix
    that is zero exactly on its diagonal and never negative, neither half
    of an iteration makes J larger. Labelling every point with its nearest
    medoid cannot raise any point's term, and every old medoid labels
    itself, so it is one of the candidates its cluster's new medoid was
    chosen as the least of. */
module MedoidDescent {
  import opened Clustering
  import opened Regroup
  import opened MedoidStep

  /** The dissimilarity between point i and the medoid of cluster j. */
  function Term(d: seq<seq<real>>, m: seq<int>): (nat, nat) -> real
  {
    (i: nat, j: nat) => if j < |m| && 0 <= m[j] < |d| && i < |d[m[j]]| then d[m[j]][i] else 0.0
  }

  lemma {:induction false} SumOverIsMemberTotal(d: seq<seq<real>>, m: seq<int>, j: nat, idx: seq<nat>)
    requires IsSquare(d) && InRange(m, |d|) && j < |m|
    requires forall b :: 0 <= b < |idx| ==> idx[b] < |d|
    ensures SumOver(d, m[j], idx) == MemberTotal(Term(d, m), idx, j)
  {
    if |idx| > 0 {
      SumOverIsMemberTotal(d, m, j, idx[..|idx| - 1]);
    }
  }

  /** J of the first K medoids is their clusters' totals of `Term`. */
  lemma {:induction false} CostIsClusterTotal(d: seq<seq<real>>, labels: seq<nat>, m: seq<int>, K: nat)
    requires IsSquare(d) && |labels| == |d| && InRange(m, |d|) && K <= |m|
    ensures Cost(d, labels, m[..K]) == ClusterTotal(Term(d, m), Groups(labels), K)
  {
    if K > 0 {
      CostIsClusterTotal(d, labels, m, K - 1);
      assert m[..K][..K - 1] == m[..K - 1];
      SumOverIsMemberTotal(d, m, K - 1, Members(labels, K - 1));
    }
  }

  /** J summed cluster by cluster equals the sum over points of the
      dissimilarity to their own medoid. */
  lemma {:induction false} CostByPoint(d: seq<seq<real>>, labels: seq<nat>, m: seq<int>)
    requires IsSquare(d) && |labels| == |d| && InRange(m, |d|)
    requires forall i :: 0 <= i < |labels| ==> labels[i] < |m|
    ensures Cost(d, labels, m) == PointTotal(Term(d, m), labels)
  {
    CostIsClusterTotal(d, labels, m, |m|);
    assert m[..|m|] == m;
    PointsByCluster(Term(d, m), labels, |m|);
  }

  /** The labelling half of an iteration: for fixed medoids, labelling
      every point with its nearest medoid gives the least J of all
      labellings. */
  lemma {:induction false} AssignNoWorse(d: seq<seq<real>>, m: seq<int>, labels: seq<nat>)
    requires IsSquare(d) && InRange(m, |d|) && |m| > 0
    requires |labels| == |d| && forall i :: 0 <= i < |labels| ==> labels[i] < |m|
    ensures Cost(d, Assign(d, m), m) <= Cost(d, labels, m)
  {
    var e, nearest := Term(d, m), Assign(d, m);
    AssignNearest(d, m);
    forall i | 0 <= i < |nearest| ensures e(i, nearest[i]) <= e(i, labels[i]) {
      assert e(i, nearest[i]) == d[m[nearest[i]]][i] && e(i, labels[i]) == d[m[labels[i]]][i];
    }
    PointTotalMonotone(e, nearest, labels);
    CostByPoint(d, nearest, m);
    CostByPoint(d, labels, m);
  }

  /** After a completed iteration over a matrix that is zero exactly on
      its diagonal and never negative, the next iteration completes too,
      and its J is at most this one's: `Jprev - J` in the stop test is
      never negative. */
  lemma {:induction false} StepNeverRaisesJ(d: seq<seq<real>>, m: seq<int>)
    requires IsSquare(d) && InRange(m, |d|) && Separates(d) && NonNegative(d)
    requires Iterate(d, m).Stepped?
    ensures Iterate(d, Iterate(d, m).fit.reps).Stepped?
    ensures Iterate(d, Iterate(d, m).fit.reps).fit.J <= Iterate(d, m).fit.J
  {
    var f := Iterate(d, m).fit;
    SteppedMedoids(d, m);
    MedoidsLabelThemselves(d, f.reps);
    var g := Iterate(d, f.reps).fit;
    SteppedMedoids(d, f.reps);
    assert g.reps == NewMedoids(d, g.labels, |m|);
    NewMedoidsMinimiseCost(d, g.labels, f.reps);
    AssignNoWorse(d, f.reps, f.labels);
  }
}
