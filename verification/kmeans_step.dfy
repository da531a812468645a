/** One iteration of mltk/cluster/kmeans.py's `_kmeans` over an N-by-D data
    array and k centroid rows: label every point with its nearest centroid,
    move each centroid to the mean of its points, then measure J. Distances
    are squared Euclidean distances; the square root that scipy's
    `distance_matrix` takes does not change which centroid is nearest. */
module KMeansStep {
  import opened Clustering

  /** Rows of D coordinates each. */
  predicate IsMatrix(x: seq<seq<real>>, D: nat)
  {
    forall i :: 0 <= i < |x| ==> |x[i]| == D
  }

  /** Every label names one of k clusters. */
  predicate LabelsBelow(labels: seq<nat>, k: nat)
  {
    forall i :: 0 <= i < |labels| ==> labels[i] < k
  }

  function Sq(a: real): real
  {
    a * a
  }

  /** The squared Euclidean distance between two points. */
  function SqDist(x: seq<real>, c: seq<real>): real
    requires |x| == |c|
  {
    if |x| == 0 then 0.0
    else
      var n := |x| - 1;
      SqDist(x[..n], c[..n]) + Sq(x[n] - c[n])
  }

  lemma {:induction false} SqDistNonNegative(x: seq<real>, c: seq<real>)
    requires |x| == |c|
    ensures 0.0 <= SqDist(x, c)
  {
    if |x| > 0 {
      var n := |x| - 1;
      SqDistNonNegative(x[..n], c[..n]);
    }
  }

  /** Row i of `distance_matrix(data, centroids)`, squared. */
  function Distances(x: seq<real>, c: seq<seq<real>>, D: nat): (ds: seq<real>)
    requires |x| == D && IsMatrix(c, D)
    ensures |ds| == |c|
  {
    seq(|c|, j requires 0 <= j < |c| => SqDist(x, c[j]))
  }

  /** `dist.argmin(axis=1)`: each point takes the first centroid at least
      distance. */
  function Assign(data: seq<seq<real>>, D: nat, c: seq<seq<real>>): (labels: seq<nat>)
    requires IsMatrix(data, D) && IsMatrix(c, D) && |c| > 0
    ensures |labels| == |data| && LabelsBelow(labels, |c|)
  {
    seq(|data|, i requires 0 <= i < |data| => ArgMin(Distances(data[i], c, D)))
  }

  /** Every point's centroid is at least as near as any other centroid,
      and strictly nearer than every centroid listed before it. */
  lemma {:induction false} AssignNearest(data: seq<seq<real>>, D: nat, c: seq<seq<real>>)
    requires IsMatrix(data, D) && IsMatrix(c, D) && |c| > 0
    ensures var labels := Assign(data, D, c);
      (forall i, j :: 0 <= i < |data| && 0 <= j < |c| ==>
        SqDist(data[i], c[labels[i]]) <= SqDist(data[i], c[j])) &&
      (forall i, j :: 0 <= i < |data| && 0 <= j < labels[i] ==>
        SqDist(data[i], c[labels[i]]) < SqDist(data[i], c[j]))
  {
    var labels := Assign(data, D, c);
    forall i | 0 <= i < |data|
      ensures forall j :: 0 <= j < |c| ==> SqDist(data[i], c[labels[i]]) <= SqDist(data[i], c[j])
      ensures forall j :: 0 <= j < labels[i] ==> SqDist(data[i], c[labels[i]]) < SqDist(data[i], c[j])
    {
      var ds := Distances(data[i], c, D);
      assert forall j :: 0 <= j < |c| ==> ds[j] == SqDist(data[i], c[j]);
      ArgMinIsFirstMin(ds);
      assert labels[i] == ArgMin(ds);
    }
  }

  /** Coordinate t of the rows listed in idx, added up. */
  function CoordSum(data: seq<seq<real>>, D: nat, idx: seq<nat>, t: nat): real
    requires IsMatrix(data, D) && t < D
    requires forall a :: 0 <= a < |idx| ==> idx[a] < |data|
  {
    if |idx| == 0 then 0.0
    else
      var n := |idx| - 1;
      CoordSum(data, D, idx[..n], t) + data[idx[n]][t]
  }

  /** `data[idx].mean(axis=0)` for a non-empty list of rows idx. */
  function Mean(data: seq<seq<real>>, D: nat, idx: seq<nat>): (mu: seq<real>)
    requires IsMatrix(data, D) && |idx| > 0
    requires forall a :: 0 <= a < |idx| ==> idx[a] < |data|
    ensures |mu| == D
  {
    seq(D, t requires 0 <= t < D => CoordSum(data, D, idx, t) / (|idx| as real))
  }

  /** `data[idx_j].mean(axis=0)`: the new centroid of a non-empty cluster j. */
  function Centroid(data: seq<seq<real>>, D: nat, labels: seq<nat>, j: nat): (mu: seq<real>)
    requires IsMatrix(data, D) && |labels| == |data| && j in labels
    ensures |mu| == D
  {
    MembersEmpty(labels, j);
    Mean(data, D, Members(labels, j))
  }

  /** Centroids 0..k-1 after the re-centring loop, given that none of those
      clusters is empty. */
  function NewCentroids(data: seq<seq<real>>, D: nat, labels: seq<nat>, k: nat): (c: seq<seq<real>>)
    requires IsMatrix(data, D) && |labels| == |data|
    requires forall j :: 0 <= j < k ==> j in labels
    ensures |c| == k && IsMatrix(c, D)
  {
    seq(k, j requires 0 <= j < k => Centroid(data, D, labels, j))
  }

  /** Passing one more non-empty cluster appends its centroid. */
  lemma {:induction false} NewCentroidsSnoc(data: seq<seq<real>>, D: nat, labels: seq<nat>, j: nat)
    requires IsMatrix(data, D) && |labels| == |data|
    requires forall c :: 0 <= c <= j ==> c in labels
    ensures NewCentroids(data, D, labels, j + 1) == NewCentroids(data, D, labels, j) + [Centroid(data, D, labels, j)]
  {
    var c, c' := NewCentroids(data, D, labels, j), NewCentroids(data, D, labels, j + 1);
    forall i | 0 <= i < j ensures c'[i] == c[i] {
    }
  }

  /** `((data - centroids[labels])**2).sum()` over the first |labels| points. */
  function Objective(data: seq<seq<real>>, D: nat, labels: seq<nat>, c: seq<seq<real>>): real
    requires IsMatrix(data, D) && IsMatrix(c, D) && |labels| <= |data| && LabelsBelow(labels, |c|)
  {
    if |labels| == 0 then 0.0
    else
      var n := |labels| - 1;
      Objective(data, D, labels[..n], c) + SqDist(data[n], c[labels[n]])
  }

  /** J is never negative. */
  lemma {:induction false} ObjectiveNonNegative(data: seq<seq<real>>, D: nat, labels: seq<nat>, c: seq<seq<real>>)
    requires IsMatrix(data, D) && IsMatrix(c, D) && |labels| <= |data| && LabelsBelow(labels, |c|)
    ensures 0.0 <= Objective(data, D, labels, c)
  {
    if |labels| > 0 {
      var n := |labels| - 1;
      ObjectiveNonNegative(data, D, labels[..n], c);
      SqDistNonNegative(data[n], c[labels[n]]);
    }
  }

  /** One pass of the `while True` body up to the stop test. With no
      centroid the argmin raises. The source lets an empty cluster's mean
      become NaN; the model raises at the first empty cluster instead,
      after centroids 0..j-1 were already overwritten. */
  function Iterate(data: seq<seq<real>>, D: nat, c: seq<seq<real>>): (s: Step<seq<seq<real>>>)
    requires IsMatrix(data, D) && IsMatrix(c, D)
    ensures |s.Reps()| == |c| && IsMatrix(s.Reps(), D)
  {
    if |c| == 0 then Failed(NoClusters, c)
    else
      var labels := Assign(data, D, c);
      match FirstEmpty(labels, |c|)
      case None =>
        var next := NewCentroids(data, D, labels, |c|);
        Stepped(Fit(next, labels, Objective(data, D, labels, next)))
      case Some(j) => Failed(EmptyCluster(j), NewCentroids(data, D, labels, j) + c[j..])
  }

  /** `Iterate` over the data as the step of the outer loop. The drivers
      only start from k rows of D coordinates, and every iteration keeps
      them so; other centroids never reach the step. */
  function Iteration(data: seq<seq<real>>, D: nat): seq<seq<real>> -> Step<seq<seq<real>>>
  {
    c => if IsMatrix(data, D) && IsMatrix(c, D) then Iterate(data, D, c) else Failed(NoClusters, c)
  }

  /** The `for j` loop: overwrites `centroids[j]` cluster by cluster, and
      stops at the first empty cluster. */
  method Recenter(data: seq<seq<real>>, D: nat, labels: seq<nat>, centroids: array<seq<real>>) returns (empty: Option<nat>)
    requires IsMatrix(data, D) && |labels| == |data|
    modifies centroids
    ensures empty == FirstEmpty(labels, centroids.Length)
    ensures empty.None? ==> centroids[..] == NewCentroids(data, D, labels, centroids.Length)
    ensures empty.Some? ==>
      centroids[..] == NewCentroids(data, D, labels, empty.value) + old(centroids[..])[empty.value..]
  {
    ghost var rest := centroids[..];
    for j := 0 to centroids.Length
      invariant forall c :: 0 <= c < j ==> c in labels
      invariant centroids[..] == NewCentroids(data, D, labels, j) + rest[j..]
    {
      MembersEmpty(labels, j);
      var idx := Members(labels, j);
      if |idx| == 0 {
        FirstEmptyIs(labels, centroids.Length, j);
        return Some(j);
      }
      assert forall c :: 0 <= c <= j ==> c in labels;
      RecenterTurn(data, D, labels, j, rest);
      centroids[j] := Mean(data, D, idx);
    }
    assert rest[centroids.Length..] == [];
    return None;
  }

  /** One turn of the re-centring loop on a non-empty cluster j. */
  lemma {:induction false} RecenterTurn(data: seq<seq<real>>, D: nat, labels: seq<nat>, j: nat, rest: seq<seq<real>>)
    requires IsMatrix(data, D) && |labels| == |data| && j < |rest|
    requires forall c :: 0 <= c <= j ==> c in labels
    ensures (NewCentroids(data, D, labels, j) + rest[j..])[j := Centroid(data, D, labels, j)] ==
      NewCentroids(data, D, labels, j + 1) + rest[j + 1..]
  {
    var c, mu := NewCentroids(data, D, labels, j), Centroid(data, D, labels, j);
    NewCentroidsSnoc(data, D, labels, j);
    var lhs, rhs := (c + rest[j..])[j := mu], c + [mu] + rest[j + 1..];
    forall i | 0 <= i < |lhs| ensures lhs[i] == rhs[i] {
      if i > j {
        assert lhs[i] == rest[j..][i - j] == rest[i];
      }
    }
  }

  /** The body of `while True` up to the stop test: `dist`, `labels`, the
      re-centring loop, which updates `centroids` in place, and J. */
  method IterateInPlace(data: seq<seq<real>>, D: nat, centroids: array<seq<real>>) returns (s: Step<seq<seq<real>>>)
    requires IsMatrix(data, D) && IsMatrix(centroids[..], D)
    modifies centroids
    ensures s == Iterate(data, D, old(centroids[..]))
    ensures centroids[..] == s.Reps()
  {
    if centroids.Length == 0 {
      return Failed(NoClusters, centroids[..]);
    }
    var labels := Assign(data, D, centroids[..]);
    var empty := Recenter(data, D, labels, centroids);
    if empty.Some? {
      return Failed(EmptyCluster(empty.value), centroids[..]);
    }
    var J := Objective(data, D, labels, centroids[..]);
    return Stepped(Fit(centroids[..], labels, J));
  }

  /** A completed iteration labels each point with its nearest centroid of
      those it started from, moves every centroid to the mean of its
      cluster, none of which is empty, and measures J against the moved
      centroids. */
  lemma {:induction false} SteppedCentroids(data: seq<seq<real>>, D: nat, c: seq<seq<real>>)
    requires IsMatrix(data, D) && IsMatrix(c, D)
    requires Iterate(data, D, c).Stepped?
    ensures var f := Iterate(data, D, c).fit;
      |c| > 0 && f.labels == Assign(data, D, c) && |f.reps| == |c| && IsMatrix(f.reps, D) &&
      (forall j :: 0 <= j < |c| ==> j in f.labels && f.reps[j] == Centroid(data, D, f.labels, j)) &&
      f.J == Objective(data, D, f.labels, f.reps)
  {
    var labels := Assign(data, D, c);
    assert FirstEmpty(labels, |c|) == None;
  }

  /** k centroid rows of D coordinates. */
  function RowsOfShape(D: nat, k: nat): seq<seq<real>> -> bool
  {
    c => IsMatrix(c, D) && |c| == k
  }

  /** Every iteration, completed or not, leaves k rows of D coordinates. */
  lemma {:induction false} ShapeKept(data: seq<seq<real>>, D: nat, k: nat)
    ensures forall c :: RowsOfShape(D, k)(c) ==> RowsOfShape(D, k)(Iteration(data, D)(c).Reps())
  {
  }
}
