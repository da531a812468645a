/** mltk/cluster/kmedoids.py: `_kmedoids`, the uncapped `while True` loop
    that updates a caller-visible medoid array in place, and `kmedoids`,
    the driver that either runs once from given seeds or keeps the best of
    `ntry` runs from random samples. */
module MltkKMedoids {
  import opened Clustering
  import opened MedoidStep
  import opened Loops
  import opened MedoidDescent

  /** `_kmedoids(distmat, threshold, imedoids)`: `imedoids` is overwritten
      in place and left as the final medoids, or as far as the raising
      iteration had got. */
  method KMedoidsRaw(d: seq<seq<real>>, threshold: real, imedoids: array<int>, fuel: nat)
    returns (out: Outcome<seq<int>>)
    requires IsSquare(d) && InRange(imedoids[..], |d|)
    modifies imedoids
    ensures out == Loop(Iteration(d), threshold, old(imedoids[..]), None, 0, fuel)
    ensures imedoids[..] == out.Reps()
  {
    var Jprev: Option<real> := None;
    var iter: nat := 0;
    var left := fuel;
    while true
      invariant InRange(imedoids[..], |d|)
      invariant Loop(Iteration(d), threshold, imedoids[..], Jprev, iter, left) ==
        Loop(Iteration(d), threshold, old(imedoids[..]), None, 0, fuel)
      decreases left
    {
      if left == 0 {
        return OutOfFuel(imedoids[..], iter);
      }
      ghost var m, prev, iters, fuel0 := imedoids[..], Jprev, iter, left;
      var step := IterateInPlace(d, imedoids);
      assert Iteration(d)(m) == step;
      if step.Failed? {
        LoopFails(Iteration(d), threshold, m, prev, iters, fuel0);
        return Raised(step.error, imedoids[..], iter);
      }
      iter := iter + 1;
      left := left - 1;
      LoopNext(Iteration(d), threshold, m, prev, iters, fuel0, step.fit, iter, left);
      if Stops(Jprev, step.fit.J, threshold) {
        return Done(step.fit, iter);
      }
      Jprev := Some(step.fit.J);
    }
  }

  /** The outcome of every restart, run t starting from `samples[t]`. */
  function Runs(d: seq<seq<real>>, threshold: real, samples: seq<seq<int>>, fuel: nat): seq<Outcome<seq<int>>>
  {
    seq(|samples|, t requires 0 <= t < |samples| => Loop(Iteration(d), threshold, samples[t], None, 0, fuel))
  }

  /** The `for i in range(ntry)` restart loop of `kmedoids`: run i starts
      from `samples[i]`, the i-th `random.sample(range(N), k)`, and a run
      replaces the kept one only when its J is strictly smaller. */
  method Restarts(d: seq<seq<real>>, k: nat, threshold: real, ntry: int, samples: seq<seq<int>>, fuel: nat)
    returns (r: Result<Option<Fit<seq<int>>>>)
    requires IsSquare(d) && |samples| == Tries(ntry)
    requires k <= |d| ==> forall t :: 0 <= t < |samples| ==> IsSample(samples[t], k, |d|)
    ensures k > |d| ==> r == if ntry > 0 then Err(SampleTooLarge) else Ok(None)
    ensures k <= |d| ==> r == KeepBest(Runs(d, threshold, samples, fuel), None)
  {
    ghost var outs := Runs(d, threshold, samples, fuel);
    var best: Option<Fit<seq<int>>> := None;
    for i := 0 to Tries(ntry)
      invariant k <= |d| ==> KeepBest(outs[i..], best) == KeepBest(outs, None)
      invariant k > |d| ==> i == 0 && best.None?
    {
      if k > |d| {
        return Err(SampleTooLarge);
      }
      var imedoids := new int[k](a requires 0 <= a < k => samples[i][a]);
      assert imedoids[..] == samples[i];
      var out := KMedoidsRaw(d, threshold, imedoids, fuel);
      assert outs[i..][0] == out && outs[i..][1..] == outs[i + 1..];
      match out
      case Done(f, _) =>
        if best.None? || f.J < best.value.J {
          best := Some(f);
        }
      case Raised(e, _, _) =>
        return Err(e);
      case OutOfFuel(_, _) =>
        return Err(FuelExhausted);
    }
    return Ok(best);
  }

  /** `kmedoids(distmat, k, threshold, ntry, seeds)`. A null `seeds` is
      Python's None: the restart loop runs. Given seeds must be k rows of
      the matrix; the single run from them overwrites them in place. The
      result carries the kept run's medoids, labels and J, or None when
      there was no run. */
  method KMedoids(d: seq<seq<real>>, k: nat, threshold: real, ntry: int, seeds: array?<int>,
                  samples: seq<seq<int>>, fuel: nat)
    returns (r: Result<Option<Fit<seq<int>>>>)
    requires IsSquare(d)
    requires seeds == null ==> |samples| == Tries(ntry)
    requires seeds == null && k <= |d| ==> forall t :: 0 <= t < |samples| ==> IsSample(samples[t], k, |d|)
    modifies seeds
    ensures seeds == null && k > |d| ==> r == if ntry > 0 then Err(SampleTooLarge) else Ok(None)
    ensures seeds == null && k <= |d| ==> r == KeepBest(Runs(d, threshold, samples, fuel), None)
    ensures seeds != null && seeds.Length != k ==> r == Err(SeedsNotLength(k)) && unchanged(seeds)
    ensures seeds != null && seeds.Length == k && !InRange(old(seeds[..]), |d|) ==>
      r == Err(SeedOutOfRange(FirstOutOfRange(old(seeds[..]), |d|).value)) && unchanged(seeds)
    ensures seeds != null && seeds.Length == k && InRange(old(seeds[..]), |d|) ==>
      var out := Loop(Iteration(d), threshold, old(seeds[..]), None, 0, fuel);
      r == KeepBest([out], None) && seeds[..] == out.Reps()
  {
    if seeds == null {
      r := Restarts(d, k, threshold, ntry, samples, fuel);
      return;
    }
    if seeds.Length != k {
      return Err(SeedsNotLength(k));
    }
    var bad := FirstOutOfRange(seeds[..], |d|);
    if bad.Some? {
      return Err(SeedOutOfRange(bad.value));
    }
    var out := KMedoidsRaw(d, threshold, seeds, fuel);
    match out
    case Done(f, _) =>
      r := Ok(Some(f));
    case Raised(e, _, _) =>
      r := Err(e);
    case OutOfFuel(_, _) =>
      r := Err(FuelExhausted);
  }

  /** Distinct medoids over a matrix that is zero exactly on its diagonal
      and never negative never make `_kmedoids` raise, and the medoids it
      leaves are distinct. */
  lemma {:induction false} LoopNeverRaises(d: seq<seq<real>>, threshold: real, m: seq<int>, fuel: nat)
    requires IsSquare(d) && InRange(m, |d|) && |m| > 0
    requires Distinct(m) && Separates(d) && NonNegative(d)
    ensures !Loop(Iteration(d), threshold, m, None, 0, fuel).Raised?
    ensures Distinct(Loop(Iteration(d), threshold, m, None, 0, fuel).Reps())
  {
    DistinctMedoidsKept(d);
    LoopKeeps(Iteration(d), DistinctRows(d), threshold, m, None, 0, fuel);
  }

  /** No medoid at all makes the first iteration raise `NoClusters`; two
      equal starting medoids make it raise on an empty cluster. */
  lemma {:induction false} LoopRaises(d: seq<seq<real>>, threshold: real, m: seq<int>, fuel: nat)
    requires IsSquare(d) && InRange(m, |d|) && fuel > 0 && (|m| == 0 || !Distinct(m))
    ensures var out := Loop(Iteration(d), threshold, m, None, 0, fuel);
      out.Raised? && out.iters == 0 &&
      (|m| == 0 ==> out.error == NoClusters) && (|m| > 0 ==> out.error.EmptyCluster?)
  {
    if |m| > 0 {
      var a, b :| 0 <= a < b < |m| && m[a] == m[b];
      DuplicateMedoidsRaise(d, m, a, b);
    }
    LoopFails(Iteration(d), threshold, m, None, 0, fuel);
  }

  /** A finished run took at least two iterations. Its labels are the
      assignment to the medoids the final iteration started from, not to
      the medoids it returns. Those are distinct, each is labelled with its
      own cluster and is that cluster's re-chosen medoid, every label names
      a medoid, and J is the sum over clusters of the least within-cluster
      dissimilarity sum; it is never negative when the matrix is not. */
  lemma {:induction false} DoneFit(d: seq<seq<real>>, threshold: real, m: seq<int>, fuel: nat, f: Fit<seq<int>>, n: nat)
    requires IsSquare(d) && InRange(m, |d|)
    requires Loop(Iteration(d), threshold, m, None, 0, fuel) == Done(f, n)
    ensures 2 <= n
    ensures exists m0 :: InRange(m0, |d|) && |m0| == |m| && Iterate(d, m0) == Stepped(f) && f.labels == Assign(d, m0)
    ensures |f.reps| == |m| > 0 && Distinct(f.reps) && InRange(f.reps, |d|)
    ensures |f.labels| == |d| && forall i :: 0 <= i < |d| ==> f.labels[i] < |m|
    ensures forall j :: 0 <= j < |m| ==> f.labels[f.reps[j]] == j && f.reps[j] == NewMedoid(d, f.labels, j)
    ensures f.J == Cost(d, f.labels, f.reps)
    ensures NonNegative(d) ==> 0.0 <= f.J
  {
    var step := Iteration(d);
    LoopDone(step, threshold, m, None, 0, fuel, f, n);
    var m1 :| step(m1).Stepped? && step(step(m1).fit.reps) == Stepped(f) && step(m1).fit.J - f.J < threshold;
    var m0 := step(m1).fit.reps;
    assert InRange(m1, |d|) && InRange(m0, |d|);
    ShapeKept(d, |m|);
    LoopPreserves(step, RowsOfLength(d, |m|), threshold, m, None, 0, fuel);
    SteppedMedoids(d, m0);
    if NonNegative(d) {
      CostNonNegative(d, f.labels, f.reps);
    }
  }

  /** From k distinct random medoids over a separating, non-negative
      matrix, the random restarts never raise: the driver either returns
      a run or only the model's fuel ran out. */
  lemma {:induction false} RunsNeverRaise(d: seq<seq<real>>, threshold: real, k: nat, samples: seq<seq<int>>, fuel: nat)
    requires IsSquare(d) && Separates(d) && NonNegative(d) && k > 0
    requires forall t :: 0 <= t < |samples| ==> IsSample(samples[t], k, |d|)
    ensures var r := KeepBest(Runs(d, threshold, samples, fuel), None);
      r.Ok? || r == Err(FuelExhausted)
  {
    var outs := Runs(d, threshold, samples, fuel);
    if KeepBest(outs, None).Err? {
      KeepBestErr(outs, None, KeepBest(outs, None).error);
      var t :| 0 <= t < |outs| && !outs[t].Done? &&
        KeepBest(outs, None).error == (if outs[t].Raised? then outs[t].error else FuelExhausted);
      LoopNeverRaises(d, threshold, samples[t], fuel);
    }
  }

  /** The fit the restart loop keeps comes from the first run of least J.
      Its k medoids are distinct rows of the matrix, each labelled with its
      own cluster, every label names one of them, and J is their cost. */
  lemma {:induction false} KeptRun(d: seq<seq<real>>, k: nat, threshold: real, samples: seq<seq<int>>, fuel: nat,
                                   f: Fit<seq<int>>)
    requires IsSquare(d) && forall t :: 0 <= t < |samples| ==> IsSample(samples[t], k, |d|)
    requires KeepBest(Runs(d, threshold, samples, fuel), None) == Ok(Some(f))
    ensures exists t: nat :: FirstMinimal(Runs(d, threshold, samples, fuel), t) &&
                             Runs(d, threshold, samples, fuel)[t].fit == f
    ensures |f.reps| == k > 0 && Distinct(f.reps) && InRange(f.reps, |d|)
    ensures |f.labels| == |d| && forall i :: 0 <= i < |d| ==> f.labels[i] < k
    ensures forall j :: 0 <= j < k ==> f.labels[f.reps[j]] == j
    ensures f.J == Cost(d, f.labels, f.reps)
  {
    var outs := Runs(d, threshold, samples, fuel);
    KeepBestIsFirstMinimal(outs, f);
    var t: nat :| FirstMinimal(outs, t) && outs[t].fit == f;
    assert IsSample(samples[t], k, |d|);
    DoneFit(d, threshold, samples[t], fuel, f, outs[t].iters);
  }

  /** Over a matrix that is zero exactly on its diagonal and never
      negative, J never rises from one iteration to the next, so the fall
      that stopped a finished run lies in [0, threshold): with a threshold
      of 0 or below no run finishes. */
  lemma {:induction false} FinalFall(d: seq<seq<real>>, threshold: real, m: seq<int>, fuel: nat, f: Fit<seq<int>>, n: nat)
    requires IsSquare(d) && Separates(d) && NonNegative(d)
    requires Loop(Iteration(d), threshold, m, None, 0, fuel) == Done(f, n)
    ensures exists m1 :: InRange(m1, |d|) && Iterate(d, m1).Stepped? &&
                         Iterate(d, Iterate(d, m1).fit.reps) == Stepped(f) &&
                         0.0 <= Iterate(d, m1).fit.J - f.J < threshold
    ensures 0.0 < threshold
  {
    var step := Iteration(d);
    LoopDone(step, threshold, m, None, 0, fuel, f, n);
    var m1 :| step(m1).Stepped? && step(step(m1).fit.reps) == Stepped(f) && step(m1).fit.J - f.J < threshold;
    assert InRange(m1, |d|);
    StepNeverRaisesJ(d, m1);
  }
}
