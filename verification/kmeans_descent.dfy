/** Why `_kmeans` in mltk/cluster/kmeans.py can stop on a small fall in J:
    neither half of an iteration makes J larger. Moving a centroid to the
    mean of its points cannot raise its cluster's squared sum (the sum
    about any other point is larger by |cluster| times that point's squared
    distance to the mean), and labelling every point with its nearest
    centroid cannot raise any point's term. */
module KMeansDescent {
  import opened Clustering
  import opened KMeansStep
  import opened Regroup

  /** The listed rows exist. */
  predicate RowsOf(data: seq<seq<real>>, idx: seq<nat>)
  {
    forall a :: 0 <= a < |idx| ==> idx[a] < |data|
  }

  /** Squared distance of the rows idx to the point v, added up. */
  function Within(data: seq<seq<real>>, D: nat, idx: seq<nat>, v: seq<real>): real
    requires IsMatrix(data, D) && |v| == D && RowsOf(data, idx)
  {
    if |idx| == 0 then 0.0
    else
      var n := |idx| - 1;
      Within(data, D, idx[..n], v) + SqDist(data[idx[n]], v)
  }

  /** Coordinate t of the rows idx: squared deviations from x, added up. */
  function Dev(data: seq<seq<real>>, D: nat, idx: seq<nat>, t: nat, x: real): real
    requires IsMatrix(data, D) && t < D && RowsOf(data, idx)
  {
    if |idx| == 0 then 0.0
    else
      var n := |idx| - 1;
      Dev(data, D, idx[..n], t, x) + Sq(data[idx[n]][t] - x)
  }

  /** Coordinate t of the rows idx: squares, added up. */
  function SqSum(data: seq<seq<real>>, D: nat, idx: seq<nat>, t: nat): real
    requires IsMatrix(data, D) && t < D && RowsOf(data, idx)
  {
    if |idx| == 0 then 0.0
    else
      var n := |idx| - 1;
      SqSum(data, D, idx[..n], t) + Sq(data[idx[n]][t])
  }

  /** The squared deviations of N values from x, written with their sum
      S1 and the sum S2 of their squares. */
  function Quad(S2: real, S1: real, N: real, x: real): real
  {
    S2 - 2.0 * x * S1 + N * Sq(x)
  }

  /** N times the squared gap between m and x. */
  function Spread(N: real, m: real, x: real): real
  {
    N * Sq(m - x)
  }

  /** One more value y adds its squared deviation to the quadratic. */
  lemma QuadStep(d: real, d0: real, S2: real, S20: real, S1: real, S10: real, N: real, N0: real, y: real, x: real)
    requires d0 == Quad(S20, S10, N0, x)
    requires d == d0 + Sq(y - x) && S2 == S20 + Sq(y) && S1 == S10 + y && N == N0 + 1.0
    ensures d == Quad(S2, S1, N, x)
  {
    assert Sq(y - x) == Sq(y) - 2.0 * x * y + Sq(x);
    assert 2.0 * x * S1 == 2.0 * x * S10 + 2.0 * x * y;
    assert N * Sq(x) == N0 * Sq(x) + Sq(x);
  }

  lemma {:induction false} DevExpand(data: seq<seq<real>>, D: nat, idx: seq<nat>, t: nat, x: real)
    requires IsMatrix(data, D) && t < D && RowsOf(data, idx)
    ensures Dev(data, D, idx, t, x) == Quad(SqSum(data, D, idx, t), CoordSum(data, D, idx, t), |idx| as real, x)
  {
    if |idx| > 0 {
      var n := |idx| - 1;
      DevExpand(data, D, idx[..n], t, x);
      QuadStep(Dev(data, D, idx, t, x), Dev(data, D, idx[..n], t, x),
               SqSum(data, D, idx, t), SqSum(data, D, idx[..n], t),
               CoordSum(data, D, idx, t), CoordSum(data, D, idx[..n], t),
               |idx| as real, |idx[..n]| as real, data[idx[n]][t], x);
    }
  }

  /** The algebra behind `DevAroundMean`: with m = S1 / N, the quadratic at
      x exceeds its value at m by N (m - x)^2. */
  lemma MeanShift(S2: real, S1: real, N: real, x: real)
    requires N > 0.0
    ensures Quad(S2, S1, N, x) == Quad(S2, S1, N, S1 / N) + Spread(N, S1 / N, x)
  {
    var m := S1 / N;
    assert S1 == N * m;
    assert 2.0 * x * S1 == 2.0 * N * x * m;
    assert 2.0 * m * S1 == 2.0 * N * m * m;
    assert N * Sq(m - x) == N * Sq(x) - 2.0 * N * x * m + N * Sq(m);
  }

  /** In one coordinate, the deviations about any x exceed those about the
      mean m by |idx| (m - x)^2. */
  lemma {:induction false} DevAroundMean(data: seq<seq<real>>, D: nat, idx: seq<nat>, t: nat, x: real)
    requires IsMatrix(data, D) && t < D && RowsOf(data, idx) && |idx| > 0
    ensures var m := CoordSum(data, D, idx, t) / (|idx| as real);
      Dev(data, D, idx, t, x) == Dev(data, D, idx, t, m) + Spread(|idx| as real, m, x)
  {
    DevExpand(data, D, idx, t, x);
    DevExpand(data, D, idx, t, CoordSum(data, D, idx, t) / (|idx| as real));
    MeanShift(SqSum(data, D, idx, t), CoordSum(data, D, idx, t), |idx| as real, x);
  }

  /** The deviations of the rows idx in every coordinate. */
  function DevAt(data: seq<seq<real>>, D: nat, idx: seq<nat>): (nat, real) -> real
  {
    (t: nat, x: real) => if IsMatrix(data, D) && RowsOf(data, idx) && t < D then Dev(data, D, idx, t, x) else 0.0
  }

  /** f(t, v[t]) over coordinates 0..T-1, added up. */
  function CoordTotal(f: (nat, real) -> real, v: seq<real>, T: nat): real
    requires T <= |v|
  {
    if T == 0 then 0.0 else CoordTotal(f, v, T - 1) + f(T - 1, v[T - 1])
  }

  /** Spread(N, mu[t], v[t]) over coordinates 0..T-1, added up: N times
      the squared distance from mu to v, coordinate by coordinate. */
  function Spreads(N: real, mu: seq<real>, v: seq<real>, T: nat): real
    requires T <= |mu| && T <= |v|
  {
    if T == 0 then 0.0 else Spreads(N, mu, v, T - 1) + Spread(N, mu[T - 1], v[T - 1])
  }

  lemma SpreadNonNegative(N: real, m: real, x: real)
    requires 0.0 <= N
    ensures 0.0 <= Spread(N, m, x)
  {
    assert 0.0 <= Sq(m - x);
  }

  lemma {:induction false} SpreadsNonNegative(N: real, mu: seq<real>, v: seq<real>, T: nat)
    requires 0.0 <= N && T <= |mu| && T <= |v|
    ensures 0.0 <= Spreads(N, mu, v, T)
  {
    if T > 0 {
      SpreadsNonNegative(N, mu, v, T - 1);
      SpreadNonNegative(N, mu[T - 1], v[T - 1]);
    }
  }

  lemma {:induction false} CoordTotalZero(f: (nat, real) -> real, v: seq<real>, T: nat)
    requires T <= |v|
    requires forall t :: 0 <= t < T ==> f(t, v[t]) == 0.0
    ensures CoordTotal(f, v, T) == 0.0
  {
    if T > 0 {
      CoordTotalZero(f, v, T - 1);
    }
  }

  /** When every coordinate's term grows by the squared gap between x and
      v there, the total grows by their squared distance. */
  lemma {:induction false} CoordTotalSnoc(f: (nat, real) -> real, f': (nat, real) -> real, x: seq<real>,
                                          v: seq<real>, T: nat)
    requires |x| == |v| && T <= |v|
    requires forall t :: 0 <= t < T ==> f(t, v[t]) == f'(t, v[t]) + Sq(x[t] - v[t])
    ensures CoordTotal(f, v, T) == CoordTotal(f', v, T) + SqDist(x[..T], v[..T])
  {
    if T > 0 {
      var t := T - 1;
      CoordTotalSnoc(f, f', x, v, t);
      assert x[..T][..t] == x[..t] && v[..T][..t] == v[..t];
    }
  }

  /** When every coordinate's term about v exceeds its term about mu by
      `Spread`, the totals differ by `Spreads`. */
  lemma {:induction false} CoordTotalShift(f: (nat, real) -> real, mu: seq<real>, v: seq<real>, N: real, T: nat)
    requires |mu| == |v| && T <= |v|
    requires forall t :: 0 <= t < T ==> f(t, v[t]) == f(t, mu[t]) + Spread(N, mu[t], v[t])
    ensures CoordTotal(f, v, T) == CoordTotal(f, mu, T) + Spreads(N, mu, v, T)
  {
    if T > 0 {
      CoordTotalShift(f, mu, v, N, T - 1);
    }
  }

  /** Summing by rows or by coordinates gives the same total. */
  lemma {:induction false} WithinByCoords(data: seq<seq<real>>, D: nat, idx: seq<nat>, v: seq<real>)
    requires IsMatrix(data, D) && |v| == D && RowsOf(data, idx)
    ensures Within(data, D, idx, v) == CoordTotal(DevAt(data, D, idx), v, D)
  {
    if |idx| == 0 {
      CoordTotalZero(DevAt(data, D, idx), v, D);
    } else {
      var n := |idx| - 1;
      var x := data[idx[n]];
      WithinByCoords(data, D, idx[..n], v);
      CoordTotalSnoc(DevAt(data, D, idx), DevAt(data, D, idx[..n]), x, v, D);
      assert x[..D] == x && v[..D] == v;
    }
  }

  /** `DevAroundMean` at coordinate t of v, against coordinate t of the mean. */
  lemma {:induction false} CoordAroundMean(data: seq<seq<real>>, D: nat, idx: seq<nat>, v: seq<real>, t: nat)
    requires IsMatrix(data, D) && |v| == D && RowsOf(data, idx) && |idx| > 0 && t < D
    ensures var mu, f := Mean(data, D, idx), DevAt(data, D, idx);
      f(t, v[t]) == f(t, mu[t]) + Spread(|idx| as real, mu[t], v[t])
  {
    assert Mean(data, D, idx)[t] == CoordSum(data, D, idx, t) / (|idx| as real);
    DevAroundMean(data, D, idx, t, v[t]);
  }

  /** The squared sum of a non-empty cluster about any point v is its sum
      about the mean plus |cluster| times the squared gap between the mean
      and v, summed over the coordinates. */
  lemma {:induction false} WithinAroundMean(data: seq<seq<real>>, D: nat, idx: seq<nat>, v: seq<real>)
    requires IsMatrix(data, D) && |v| == D && RowsOf(data, idx) && |idx| > 0
    ensures var mu := Mean(data, D, idx);
      Within(data, D, idx, v) == Within(data, D, idx, mu) + Spreads(|idx| as real, mu, v, D)
  {
    var mu, f := Mean(data, D, idx), DevAt(data, D, idx);
    forall t | 0 <= t < D ensures f(t, v[t]) == f(t, mu[t]) + Spread(|idx| as real, mu[t], v[t]) {
      CoordAroundMean(data, D, idx, v, t);
    }
    CoordTotalShift(f, mu, v, |idx| as real, D);
    WithinByCoords(data, D, idx, v);
    WithinByCoords(data, D, idx, mu);
  }

  /** So the mean is where a non-empty cluster's squared sum is least. */
  lemma {:induction false} MeanMinimises(data: seq<seq<real>>, D: nat, idx: seq<nat>, v: seq<real>)
    requires IsMatrix(data, D) && |v| == D && RowsOf(data, idx) && |idx| > 0
    ensures Within(data, D, idx, Mean(data, D, idx)) <= Within(data, D, idx, v)
  {
    WithinAroundMean(data, D, idx, v);
    SpreadsNonNegative(|idx| as real, Mean(data, D, idx), v, D);
  }

  /** The squared distance from point i to centroid j. */
  function Term(data: seq<seq<real>>, c: seq<seq<real>>): (nat, nat) -> real
  {
    (i: nat, j: nat) => if i < |data| && j < |c| && |data[i]| == |c[j]| then SqDist(data[i], c[j]) else 0.0
  }

  lemma {:induction false} ObjectiveIsPointTotal(data: seq<seq<real>>, D: nat, labels: seq<nat>, c: seq<seq<real>>)
    requires IsMatrix(data, D) && IsMatrix(c, D) && |labels| <= |data| && LabelsBelow(labels, |c|)
    ensures Objective(data, D, labels, c) == PointTotal(Term(data, c), labels)
  {
    if |labels| > 0 {
      var n := |labels| - 1;
      ObjectiveIsPointTotal(data, D, labels[..n], c);
    }
  }

  lemma {:induction false} WithinIsMemberTotal(data: seq<seq<real>>, D: nat, idx: seq<nat>, c: seq<seq<real>>, j: nat)
    requires IsMatrix(data, D) && IsMatrix(c, D) && RowsOf(data, idx) && j < |c|
    ensures Within(data, D, idx, c[j]) == MemberTotal(Term(data, c), idx, j)
  {
    if |idx| > 0 {
      var n := |idx| - 1;
      WithinIsMemberTotal(data, D, idx[..n], c, j);
    }
  }

  /** The re-centring half of an iteration: with every cluster non-empty,
      moving each centroid to the mean of its points does not raise J
      for the same labels. */
  lemma {:induction false} RecenterNoWorse(data: seq<seq<real>>, D: nat, labels: seq<nat>, c: seq<seq<real>>)
    requires IsMatrix(data, D) && IsMatrix(c, D) && |labels| == |data| && LabelsBelow(labels, |c|)
    requires forall j :: 0 <= j < |c| ==> j in labels
    ensures Objective(data, D, labels, NewCentroids(data, D, labels, |c|)) <= Objective(data, D, labels, c)
  {
    var next := NewCentroids(data, D, labels, |c|);
    var e, e' := Term(data, c), Term(data, next);
    ObjectiveIsPointTotal(data, D, labels, c);
    ObjectiveIsPointTotal(data, D, labels, next);
    PointsByCluster(e, labels, |c|);
    PointsByCluster(e', labels, |c|);
    forall j | 0 <= j < |c|
      ensures MemberTotal(e', Groups(labels)(j), j) <= MemberTotal(e, Groups(labels)(j), j)
    {
      MembersEmpty(labels, j);
      WithinIsMemberTotal(data, D, Members(labels, j), c, j);
      WithinIsMemberTotal(data, D, Members(labels, j), next, j);
      MeanMinimises(data, D, Members(labels, j), c[j]);
    }
    ClusterTotalMonotone(e, e', Groups(labels), |c|);
  }

  lemma {:induction false} ObjectivePointwise(data: seq<seq<real>>, D: nat, labels: seq<nat>, labels': seq<nat>,
                                              c: seq<seq<real>>)
    requires IsMatrix(data, D) && IsMatrix(c, D) && |labels| == |labels'| <= |data|
    requires LabelsBelow(labels, |c|) && LabelsBelow(labels', |c|)
    requires forall i :: 0 <= i < |labels| ==> SqDist(data[i], c[labels[i]]) <= SqDist(data[i], c[labels'[i]])
    ensures Objective(data, D, labels, c) <= Objective(data, D, labels', c)
  {
    if |labels| > 0 {
      var n := |labels| - 1;
      ObjectivePointwise(data, D, labels[..n], labels'[..n], c);
    }
  }

  /** The labelling half of an iteration: for fixed centroids, labelling
      every point with its nearest centroid gives the least J of all
      labellings. */
  lemma {:induction false} AssignNoWorse(data: seq<seq<real>>, D: nat, c: seq<seq<real>>, labels: seq<nat>)
    requires IsMatrix(data, D) && IsMatrix(c, D) && |c| > 0
    requires |labels| == |data| && LabelsBelow(labels, |c|)
    ensures Objective(data, D, Assign(data, D, c), c) <= Objective(data, D, labels, c)
  {
    AssignNearest(data, D, c);
    ObjectivePointwise(data, D, Assign(data, D, c), labels, c);
  }

  /** Two completed iterations in a row: the second J is at most the
      first, so `Jprev - J` in the stop test is never negative. */
  lemma {:induction false} StepNeverRaisesJ(data: seq<seq<real>>, D: nat, c: seq<seq<real>>)
    requires IsMatrix(data, D) && IsMatrix(c, D) && Iterate(data, D, c).Stepped?
    requires Iterate(data, D, Iterate(data, D, c).fit.reps).Stepped?
    ensures Iterate(data, D, Iterate(data, D, c).fit.reps).fit.J <= Iterate(data, D, c).fit.J
  {
    var f := Iterate(data, D, c).fit;
    var g := Iterate(data, D, f.reps).fit;
    SteppedCentroids(data, D, c);
    SteppedCentroids(data, D, f.reps);
    assert g.reps == NewCentroids(data, D, g.labels, |c|);
    RecenterNoWorse(data, D, g.labels, f.reps);
    AssignNoWorse(data, D, f.reps, f.labels);
  }
}
