/** One iteration of k-medoids over an N-by-N dissimilarity matrix, written
    the same way in mltk/cluster/kmedoids.py and pyml/clustering/kmedoids.py:
    label every point with its nearest medoid, then re-choose each medoid as
    the member of its cluster with the least dissimilarity sum, adding those
    sums up into J. */
module MedoidStep {
  import opened Clustering

  /** `distmat`: N rows of N dissimilarities. */
  predicate IsSquare(d: seq<seq<real>>)
  {
    forall i :: 0 <= i < |d| ==> |d[i]| == |d|
  }

  predicate NonNegative(d: seq<seq<real>>)
  {
    forall i, p :: 0 <= i < |d| && 0 <= p < |d[i]| ==> 0.0 <= d[i][p]
  }

  /** Zero on the diagonal and positive off it. */
  predicate Separates(d: seq<seq<real>>)
    requires IsSquare(d)
  {
    forall i, p :: 0 <= i < |d| && 0 <= p < |d| ==> (d[i][p] == 0.0 <==> i == p)
  }

  /** `distmat[imedoids][:, i]`: the dissimilarity of each medoid to point i. */
  function Column(d: seq<seq<real>>, m: seq<int>, i: nat): (col: seq<real>)
    requires IsSquare(d) && InRange(m, |d|) && i < |d|
    ensures |col| == |m|
  {
    seq(|m|, j requires 0 <= j < |m| => d[m[j]][i])
  }

  /** `distmat[imedoids].argmin(axis=0)`: each point takes the first medoid
      at least dissimilarity. */
  function Assign(d: seq<seq<real>>, m: seq<int>): (labels: seq<nat>)
    requires IsSquare(d) && InRange(m, |d|) && |m| > 0
    ensures |labels| == |d|
    ensures forall i :: 0 <= i < |d| ==> labels[i] < |m|
  {
    seq(|d|, i requires 0 <= i < |d| => ArgMin(Column(d, m, i)))
  }

  /** Every point's medoid is at least as near as any other medoid, and
      strictly nearer than every medoid listed before it. */
  lemma {:induction false} AssignNearest(d: seq<seq<real>>, m: seq<int>)
    requires IsSquare(d) && InRange(m, |d|) && |m| > 0
    ensures var labels := Assign(d, m);
      (forall i, j :: 0 <= i < |d| && 0 <= j < |m| ==> d[m[labels[i]]][i] <= d[m[j]][i]) &&
      (forall i, j :: 0 <= i < |d| && 0 <= j < labels[i] ==> d[m[labels[i]]][i] < d[m[j]][i])
  {
    var labels := Assign(d, m);
    forall i | 0 <= i < |d|
      ensures forall j :: 0 <= j < |m| ==> d[m[labels[i]]][i] <= d[m[j]][i]
      ensures forall j :: 0 <= j < labels[i] ==> d[m[labels[i]]][i] < d[m[j]][i]
    {
      var col := Column(d, m, i);
      assert forall j :: 0 <= j < |m| ==> col[j] == d[m[j]][i];
      ArgMinIsFirstMin(col);
      assert labels[i] == ArgMin(col);
    }
  }

  /** One entry of `ml.sum(distj, axis=1)`: the dissimilarities from p to
      every member of cluster j (p itself included), added up. */
  function WithinSum(d: seq<seq<real>>, labels: seq<nat>, j: nat, p: nat): real
    requires IsSquare(d) && |labels| == |d| && p < |d|
  {
    SumOver(d, p, Members(labels, j))
  }

  /** `distmat[p][idx].sum()`. */
  function SumOver(d: seq<seq<real>>, p: nat, idx: seq<nat>): real
    requires IsSquare(d) && p < |d| && forall b :: 0 <= b < |idx| ==> idx[b] < |d|
  {
    if |idx| == 0 then 0.0 else SumOver(d, p, idx[..|idx| - 1]) + d[p][idx[|idx| - 1]]
  }

  lemma {:induction false} SumOverNonNegative(d: seq<seq<real>>, p: nat, idx: seq<nat>)
    requires IsSquare(d) && p < |d| && forall b :: 0 <= b < |idx| ==> idx[b] < |d|
    requires NonNegative(d)
    ensures 0.0 <= SumOver(d, p, idx)
  {
    if |idx| > 0 {
      SumOverNonNegative(d, p, idx[..|idx| - 1]);
    }
  }

  /** `distsum`, indexed like `idx_j`. */
  function WithinSums(d: seq<seq<real>>, labels: seq<nat>, j: nat): (s: seq<real>)
    requires IsSquare(d) && |labels| == |d|
    ensures |s| == |Members(labels, j)|
  {
    var idx := Members(labels, j);
    seq(|idx|, a requires 0 <= a < |idx| => WithinSum(d, labels, j, idx[a]))
  }

  /** `idx_j[distsum.argmin()]`: the new medoid of a non-empty cluster j,
      one of its members. */
  function NewMedoid(d: seq<seq<real>>, labels: seq<nat>, j: nat): (p: nat)
    requires IsSquare(d) && |labels| == |d| && j in labels
    ensures p < |d| && labels[p] == j
  {
    MembersEmpty(labels, j);
    Members(labels, j)[ArgMin(WithinSums(d, labels, j))]
  }

  /** The new medoid of cluster j is a member of cluster j; no member has a
      smaller dissimilarity sum, and every member with a lower index has a
      strictly larger one. */
  lemma {:induction false} NewMedoidMinimises(d: seq<seq<real>>, labels: seq<nat>, j: nat)
    requires IsSquare(d) && |labels| == |d| && j in labels
    ensures var p := NewMedoid(d, labels, j);
      p < |d| && labels[p] == j &&
      (forall q :: 0 <= q < |d| && labels[q] == j ==>
        WithinSum(d, labels, j, p) <= WithinSum(d, labels, j, q)) &&
      (forall q :: 0 <= q < p && labels[q] == j ==>
        WithinSum(d, labels, j, p) < WithinSum(d, labels, j, q))
  {
    var idx := Members(labels, j);
    MembersEmpty(labels, j);
    MembersIncreasing(labels, j);
    var s := WithinSums(d, labels, j);
    var r := ArgMin(s);
    ArgMinIsFirstMin(s);
    var p := NewMedoid(d, labels, j);
    assert p == idx[r];
    forall q | 0 <= q < |d| && labels[q] == j
      ensures WithinSum(d, labels, j, p) <= WithinSum(d, labels, j, q)
      ensures q < p ==> WithinSum(d, labels, j, p) < WithinSum(d, labels, j, q)
    {
      var a := MemberPosition(labels, j, q);
      assert s[a] == WithinSum(d, labels, j, q);
      assert s[r] == WithinSum(d, labels, j, p);
      if q < p {
        assert a < r;
      }
    }
  }

  /** Medoids 0..k-1 after the re-choosing loop, given that none of those
      clusters is empty. */
  function NewMedoids(d: seq<seq<real>>, labels: seq<nat>, k: nat): (m: seq<int>)
    requires IsSquare(d) && |labels| == |d|
    requires forall c :: 0 <= c < k ==> c in labels
    ensures |m| == k && InRange(m, |d|)
  {
    seq(k, c requires 0 <= c < k => NewMedoid(d, labels, c))
  }

  /** Passing one more non-empty cluster appends its new medoid. */
  lemma {:induction false} NewMedoidsSnoc(d: seq<seq<real>>, labels: seq<nat>, j: nat)
    requires IsSquare(d) && |labels| == |d|
    requires forall c :: 0 <= c <= j ==> c in labels
    ensures NewMedoids(d, labels, j + 1) == NewMedoids(d, labels, j) + [NewMedoid(d, labels, j)]
  {
    var m, m' := NewMedoids(d, labels, j), NewMedoids(d, labels, j + 1);
    forall c | 0 <= c < j ensures m'[c] == m[c] {
    }
  }

  /** The J of medoids m under fixed labels: for each cluster j, the
      dissimilarities from `m[j]` to the members of cluster j, added up. */
  function Cost(d: seq<seq<real>>, labels: seq<nat>, m: seq<int>): real
    requires IsSquare(d) && |labels| == |d| && InRange(m, |d|)
  {
    if |m| == 0 then 0.0
    else Cost(d, labels, m[..|m| - 1]) + WithinSum(d, labels, |m| - 1, m[|m| - 1])
  }

  /** Appending the medoid of the next cluster adds that cluster's sum. */
  lemma {:induction false} CostSnoc(d: seq<seq<real>>, labels: seq<nat>, m: seq<int>, p: int)
    requires IsSquare(d) && |labels| == |d| && InRange(m, |d|) && 0 <= p < |d|
    ensures InRange(m + [p], |d|)
    ensures Cost(d, labels, m + [p]) == Cost(d, labels, m) + WithinSum(d, labels, |m|, p)
  {
    assert (m + [p])[..|m|] == m;
  }

  /** J is never negative when no dissimilarity is. */
  lemma {:induction false} CostNonNegative(d: seq<seq<real>>, labels: seq<nat>, m: seq<int>)
    requires IsSquare(d) && |labels| == |d| && InRange(m, |d|) && NonNegative(d)
    ensures 0.0 <= Cost(d, labels, m)
  {
    if |m| > 0 {
      CostNonNegative(d, labels, m[..|m| - 1]);
      SumOverNonNegative(d, m[|m| - 1], Members(labels, |m| - 1));
    }
  }

  /** Overwriting the first entry of the untouched part of a sequence
      moves it into the updated part. */
  lemma {:induction false} Splice(done: seq<int>, x: int, rest: seq<int>)
    requires |done| < |rest|
    ensures (done + rest[|done|..])[|done| := x] == done + [x] + rest[|done| + 1..]
  {
    var j := |done|;
    var lhs, rhs := (done + rest[j..])[j := x], done + [x] + rest[j + 1..];
    forall i | 0 <= i < |lhs| ensures lhs[i] == rhs[i] {
      if i > j {
        assert lhs[i] == rest[j..][i - j] == rest[i];
      }
    }
  }

  /** One turn of the re-choosing loop on a non-empty cluster j: the
      medoid sequence grows by cluster j's new medoid, and J by its sum. */
  lemma {:induction false} RechooseTurn(d: seq<seq<real>>, labels: seq<nat>, j: nat, rest: seq<int>)
    requires IsSquare(d) && |labels| == |d| && j < |rest|
    requires forall c :: 0 <= c <= j ==> c in labels
    ensures var m, p := NewMedoids(d, labels, j), NewMedoid(d, labels, j);
      (m + rest[j..])[j := p] == NewMedoids(d, labels, j + 1) + rest[j + 1..] &&
      Cost(d, labels, NewMedoids(d, labels, j + 1)) == Cost(d, labels, m) + WithinSum(d, labels, j, p)
  {
    var m, p := NewMedoids(d, labels, j), NewMedoid(d, labels, j);
    NewMedoidsSnoc(d, labels, j);
    Splice(m, p, rest);
    CostSnoc(d, labels, m, p);
  }

  /** J only grows when each cluster's sum does. */
  lemma {:induction false} CostMonotone(d: seq<seq<real>>, labels: seq<nat>, m: seq<int>, m': seq<int>)
    requires IsSquare(d) && |labels| == |d| && InRange(m, |d|) && InRange(m', |d|) && |m| == |m'|
    requires forall j :: 0 <= j < |m| ==> WithinSum(d, labels, j, m[j]) <= WithinSum(d, labels, j, m'[j])
    ensures Cost(d, labels, m) <= Cost(d, labels, m')
  {
    if |m| > 0 {
      var n := |m| - 1;
      CostMonotone(d, labels, m[..n], m'[..n]);
    }
  }

  /** The re-chosen medoids give the least J of any choice that takes one
      member of each of the first k clusters. */
  lemma {:induction false} NewMedoidsMinimiseCost(d: seq<seq<real>>, labels: seq<nat>, m: seq<int>)
    requires IsSquare(d) && |labels| == |d| && InRange(m, |d|)
    requires forall j :: 0 <= j < |m| ==> labels[m[j]] == j
    ensures forall c :: 0 <= c < |m| ==> c in labels
    ensures Cost(d, labels, NewMedoids(d, labels, |m|)) <= Cost(d, labels, m)
  {
    forall c | 0 <= c < |m| ensures c in labels {
      assert labels[m[c]] == c;
    }
    var best := NewMedoids(d, labels, |m|);
    forall j | 0 <= j < |m| ensures WithinSum(d, labels, j, best[j]) <= WithinSum(d, labels, j, m[j]) {
      NewMedoidMinimises(d, labels, j);
    }
    CostMonotone(d, labels, best, m);
  }

  /** One pass of the `while True` body up to the stop test. With no medoid
      the argmin raises; with an empty cluster j the argmin of cluster j
      raises after medoids 0..j-1 were already overwritten. */
  function Iterate(d: seq<seq<real>>, m: seq<int>): (s: Step<seq<int>>)
    requires IsSquare(d) && InRange(m, |d|)
    ensures s.Stepped? ==> |s.fit.reps| == |m| && InRange(s.fit.reps, |d|)
    ensures s.Failed? ==> |s.reps| == |m| && InRange(s.reps, |d|)
  {
    if |m| == 0 then Failed(NoClusters, m)
    else
      var labels := Assign(d, m);
      match FirstEmpty(labels, |m|)
      case None =>
        var next := NewMedoids(d, labels, |m|);
        Stepped(Fit(next, labels, Cost(d, labels, next)))
      case Some(j) => Failed(EmptyCluster(j), NewMedoids(d, labels, j) + m[j..])
  }

  /** `Iterate` over d as the step of the outer loops. The drivers only
      start from medoids that name rows of d, and every iteration keeps
      them so; other medoids never reach the step. */
  function Iteration(d: seq<seq<real>>): seq<int> -> Step<seq<int>>
  {
    m => if IsSquare(d) && InRange(m, |d|) then Iterate(d, m) else Failed(NoClusters, m)
  }

  /** The body of the `for j` loop on a non-empty cluster j: `distsum`,
      its argmin, `imedoids[j] = idx_j[idxmin]` and the term added to J.
      Medoids 0..j-1 are already re-chosen and the rest still hold `rest`. */
  method RechooseCluster(d: seq<seq<real>>, labels: seq<nat>, imedoids: array<int>, j: nat, ghost rest: seq<int>)
    returns (cost: real)
    requires IsSquare(d) && |labels| == |d| && j < |rest|
    requires forall c :: 0 <= c <= j ==> c in labels
    requires imedoids[..] == NewMedoids(d, labels, j) + rest[j..]
    modifies imedoids
    ensures imedoids[..] == NewMedoids(d, labels, j + 1) + rest[j + 1..]
    ensures cost == Cost(d, labels, NewMedoids(d, labels, j + 1)) - Cost(d, labels, NewMedoids(d, labels, j))
  {
    RechooseTurn(d, labels, j, rest);
    var idx := Members(labels, j);
    MembersEmpty(labels, j);
    var distsum := WithinSums(d, labels, j);
    var idxmin := ArgMin(distsum);
    imedoids[j] := idx[idxmin];
    cost := distsum[idxmin];
  }

  /** The `for j` loop: overwrites `imedoids[j]` cluster by cluster and
      accumulates J, raising at the first empty cluster. */
  method Rechoose(d: seq<seq<real>>, labels: seq<nat>, imedoids: array<int>) returns (J: real, empty: Option<nat>)
    requires IsSquare(d) && |labels| == |d|
    modifies imedoids
    ensures empty == FirstEmpty(labels, imedoids.Length)
    ensures empty.None? ==>
      imedoids[..] == NewMedoids(d, labels, imedoids.Length) && J == Cost(d, labels, imedoids[..])
    ensures empty.Some? ==>
      imedoids[..] == NewMedoids(d, labels, empty.value) + old(imedoids[..])[empty.value..]
  {
    J := 0.0;
    ghost var rest := imedoids[..];
    for j := 0 to imedoids.Length
      invariant forall c :: 0 <= c < j ==> c in labels
      invariant imedoids[..] == NewMedoids(d, labels, j) + rest[j..]
      invariant J == Cost(d, labels, NewMedoids(d, labels, j))
    {
      MembersEmpty(labels, j);
      if |Members(labels, j)| == 0 {
        FirstEmptyIs(labels, imedoids.Length, j);
        return J, Some(j);
      }
      var cost := RechooseCluster(d, labels, imedoids, j, rest);
      J := J + cost;
    }
    assert rest[imedoids.Length..] == [];
    empty := None;
  }

  /** The body of `while True` up to the stop test: `dist`, `labels` and
      the re-choosing loop, which updates `imedoids` in place. */
  method IterateInPlace(d: seq<seq<real>>, imedoids: array<int>) returns (s: Step<seq<int>>)
    requires IsSquare(d) && InRange(imedoids[..], |d|)
    modifies imedoids
    ensures s == Iterate(d, old(imedoids[..]))
    ensures imedoids[..] == s.Reps()
  {
    if imedoids.Length == 0 {
      return Failed(NoClusters, imedoids[..]);
    }
    var labels := Assign(d, imedoids[..]);
    var J, empty := Rechoose(d, labels, imedoids);
    if empty.Some? {
      return Failed(EmptyCluster(empty.value), imedoids[..]);
    }
    return Stepped(Fit(imedoids[..], labels, J));
  }

  /** A completed iteration leaves distinct medoids, whatever medoids it
      started from: medoid j is labelled j, so no two can coincide. Each
      one heads its own cluster, and J adds up those clusters' least sums. */
  lemma {:induction false} SteppedMedoids(d: seq<seq<real>>, m: seq<int>)
    requires IsSquare(d) && InRange(m, |d|)
    requires Iterate(d, m).Stepped?
    ensures var f := Iterate(d, m).fit;
      |m| > 0 && f.labels == Assign(d, m) && Distinct(f.reps) &&
      (forall j :: 0 <= j < |m| ==> j in f.labels && f.labels[f.reps[j]] == j && f.reps[j] == NewMedoid(d, f.labels, j)) &&
      f.J == Cost(d, f.labels, f.reps)
  {
    var labels := Assign(d, m);
    assert FirstEmpty(labels, |m|) == None;
    var reps := NewMedoids(d, labels, |m|);
    assert Iterate(d, m).fit == Fit(reps, labels, Cost(d, labels, reps));
    forall j | 0 <= j < |m| ensures j in labels && labels[reps[j]] == j {
      assert reps[j] == NewMedoid(d, labels, j);
    }
    forall a, b | 0 <= a < b < |m| ensures reps[a] != reps[b] {
      assert labels[reps[a]] == a && labels[reps[b]] == b;
    }
  }

  /** With distinct medoids and a matrix that is zero exactly on the
      diagonal, every medoid is labelled with its own cluster, so no cluster
      is empty and the iteration completes. */
  lemma {:induction false} MedoidsLabelThemselves(d: seq<seq<real>>, m: seq<int>)
    requires IsSquare(d) && InRange(m, |d|) && |m| > 0
    requires Distinct(m) && Separates(d) && NonNegative(d)
    ensures forall j :: 0 <= j < |m| ==> Assign(d, m)[m[j]] == j
    ensures Iterate(d, m).Stepped?
  {
    var labels := Assign(d, m);
    AssignNearest(d, m);
    forall j | 0 <= j < |m| ensures labels[m[j]] == j {
      var p := m[j];
      var l := labels[p];
      assert d[m[l]][p] <= d[m[j]][p] == 0.0;
      assert m[l] == p;
    }
    forall c | 0 <= c < |m| ensures c in labels {
      assert labels[m[c]] == c;
    }
  }

  /** Two equal medoids make the later one's cluster empty (its column ties
      with the earlier one everywhere, and ties go to the lower index), so
      the iteration raises at or before that cluster. */
  lemma {:induction false} DuplicateMedoidsRaise(d: seq<seq<real>>, m: seq<int>, a: nat, b: nat)
    requires IsSquare(d) && InRange(m, |d|)
    requires a < b < |m| && m[a] == m[b]
    ensures b !in Assign(d, m)
    ensures Iterate(d, m).Failed?
    ensures Iterate(d, m).error.EmptyCluster? && Iterate(d, m).error.cluster <= b
  {
    var labels := Assign(d, m);
    AssignNearest(d, m);
    forall i | 0 <= i < |d| ensures labels[i] != b {
      assert a < labels[i] ==> d[m[labels[i]]][i] < d[m[a]][i];
    }
    assert b !in labels;
    assert FirstEmpty(labels, |m|).Some?;
  }

  /** Medoids that name k > 0 distinct rows of d. */
  function DistinctRows(d: seq<seq<real>>): seq<int> -> bool
  {
    m => InRange(m, |d|) && |m| > 0 && Distinct(m)
  }

  /** Over a matrix that is zero exactly on its diagonal and never
      negative, an iteration from distinct medoids always completes and
      leaves distinct medoids again. */
  lemma {:induction false} DistinctMedoidsKept(d: seq<seq<real>>)
    requires IsSquare(d) && Separates(d) && NonNegative(d)
    ensures forall m :: DistinctRows(d)(m) ==>
      Iteration(d)(m).Stepped? && DistinctRows(d)(Iteration(d)(m).fit.reps)
  {
    forall m | DistinctRows(d)(m)
      ensures Iteration(d)(m).Stepped? && DistinctRows(d)(Iteration(d)(m).fit.reps)
    {
      MedoidsLabelThemselves(d, m);
      SteppedMedoids(d, m);
    }
  }

  /** k medoids that name rows of d. */
  function RowsOfLength(d: seq<seq<real>>, k: nat): seq<int> -> bool
  {
    m => InRange(m, |d|) && |m| == k
  }

  /** Every iteration, completed or not, leaves k medoids naming rows. */
  lemma {:induction false} ShapeKept(d: seq<seq<real>>, k: nat)
    ensures forall m :: RowsOfLength(d, k)(m) ==> RowsOfLength(d, k)(Iteration(d)(m).Reps())
  {
  }
}
