/** mltk/cluster/kmeans.py: `_kmeans`, the uncapped `while True` loop that
    overwrites a caller-visible k-by-D centroid array row by row, and
    `kmeans`, the driver that either runs once from given seeds or keeps
    the best of `ntry` runs from randomly chosen data rows. */
module MltkKMeans {
  import opened Clustering
  import opened Loops
  import opened KMeansStep
  import opened KMeansDescent

  /** `_kmeans(data, threshold, centroids)`: `centroids` is overwritten in
      place and left as the final centroids, or as far as the raising
      iteration had got. */
  method KMeansRaw(data: seq<seq<real>>, D: nat, threshold: real, centroids: array<seq<real>>, fuel: nat)
    returns (out: Outcome<seq<seq<real>>>)
    requires IsMatrix(data, D) && IsMatrix(centroids[..], D)
    modifies centroids
    ensures out == Loop(Iteration(data, D), threshold, old(centroids[..]), None, 0, fuel)
    ensures centroids[..] == out.Reps()
  {
    var Jprev: Option<real> := None;
    var iter: nat := 0;
    var left := fuel;
    while true
      invariant IsMatrix(centroids[..], D)
      invariant Loop(Iteration(data, D), threshold, centroids[..], Jprev, iter, left) ==
        Loop(Iteration(data, D), threshold, old(centroids[..]), None, 0, fuel)
      decreases left
    {
      if left == 0 {
        return OutOfFuel(centroids[..], iter);
      }
      ghost var c, prev, iters, fuel0 := centroids[..], Jprev, iter, left;
      var step := IterateInPlace(data, D, centroids);
      assert Iteration(data, D)(c) == step;
      if step.Failed? {
        LoopFails(Iteration(data, D), threshold, c, prev, iters, fuel0);
        return Raised(step.error, centroids[..], iter);
      }
      iter := iter + 1;
      left := left - 1;
      LoopNext(Iteration(data, D), threshold, c, prev, iters, fuel0, step.fit, iter, left);
      if Stops(Jprev, step.fit.J, threshold) {
        return Done(step.fit, iter);
      }
      Jprev := Some(step.fit.J);
    }
  }

  /** `data[seeds]`: the rows of data that seeds name, in order. */
  function Rows(data: seq<seq<real>>, s: seq<int>): seq<seq<real>>
    requires InRange(s, |data|)
  {
    seq(|s|, a requires 0 <= a < |s| => data[s[a]])
  }

  /** One restart: a fresh k-by-D centroid array holding `data[seeds]`,
      run to the end. */
  method RunFrom(data: seq<seq<real>>, D: nat, threshold: real, seeds: seq<int>, fuel: nat)
    returns (out: Outcome<seq<seq<real>>>)
    requires IsMatrix(data, D) && InRange(seeds, |data|)
    ensures out == Loop(Iteration(data, D), threshold, Rows(data, seeds), None, 0, fuel)
  {
    var centroids := new seq<real>[|seeds|](a requires 0 <= a < |seeds| => data[seeds[a]]);
    assert centroids[..] == Rows(data, seeds);
    out := KMeansRaw(data, D, threshold, centroids, fuel);
  }

  /** The outcome of every restart, run t starting from the rows that
      `samples[t]` names. */
  function Runs(data: seq<seq<real>>, D: nat, threshold: real, k: nat, samples: seq<seq<int>>, fuel: nat)
    : seq<Outcome<seq<seq<real>>>>
    requires forall t :: 0 <= t < |samples| ==> IsSample(samples[t], k, |data|)
  {
    seq(|samples|, t requires 0 <= t < |samples| =>
      assert IsSample(samples[t], k, |data|);
      Loop(Iteration(data, D), threshold, Rows(data, samples[t]), None, 0, fuel))
  }

  /** The `for i in range(ntry)` restart loop of `kmeans`: run i starts from
      the rows named by `samples[i]`, the i-th `random.sample(range(N), k)`,
      and a run replaces the kept one only when its J is strictly smaller. */
  method Restarts(data: seq<seq<real>>, D: nat, k: nat, threshold: real, ntry: int, samples: seq<seq<int>>, fuel: nat)
    returns (r: Result<Option<Fit<seq<seq<real>>>>>)
    requires IsMatrix(data, D) && |samples| == Tries(ntry)
    requires k <= |data| ==> forall t :: 0 <= t < |samples| ==> IsSample(samples[t], k, |data|)
    ensures k > |data| ==> r == if ntry > 0 then Err(SampleTooLarge) else Ok(None)
    ensures k <= |data| ==> r == KeepBest(Runs(data, D, threshold, k, samples, fuel), None)
  {
    if k > |data| {
      // the first `random.sample` raises
      return if ntry > 0 then Err(SampleTooLarge) else Ok(None);
    }
    ghost var outs := Runs(data, D, threshold, k, samples, fuel);
    var best: Option<Fit<seq<seq<real>>>> := None;
    for i := 0 to Tries(ntry)
      invariant KeepBest(outs[i..], best) == KeepBest(outs, None)
    {
      var out := RunFrom(data, D, threshold, samples[i], fuel);
      assert outs[i..][0] == out && outs[i..][1..] == outs[i + 1..];
      match out
      case Done(f, _) =>
        ghost var kept := best;
        if best.None? || f.J < best.value.J {
          best := Some(f);
        }
        assert KeepBest(outs[i..], kept) == KeepBest(outs[i + 1..], best);
      case Raised(e, _, _) =>
        return Err(e);
      case OutOfFuel(_, _) =>
        return Err(FuelExhausted);
    }
    return Ok(best);
  }

  /** `kmeans(data, k, threshold, ntry, seeds)` over N rows of D
      coordinates. A null `seeds` is Python's None: the restart loop runs.
      Given seeds must be a k-by-D array; the single run from them
      overwrites them in place. The result carries the kept run's
      centroids, labels and J, or None when there was no run. */
  method KMeans(data: seq<seq<real>>, D: nat, k: nat, threshold: real, ntry: int, seeds: array?<seq<real>>,
                samples: seq<seq<int>>, fuel: nat)
    returns (r: Result<Option<Fit<seq<seq<real>>>>>)
    requires IsMatrix(data, D)
    requires seeds == null ==> |samples| == Tries(ntry)
    requires seeds == null && k <= |data| ==> forall t :: 0 <= t < |samples| ==> IsSample(samples[t], k, |data|)
    modifies seeds
    ensures seeds == null && k > |data| ==> r == if ntry > 0 then Err(SampleTooLarge) else Ok(None)
    ensures seeds == null && k <= |data| ==> r == KeepBest(Runs(data, D, threshold, k, samples, fuel), None)
    ensures seeds != null && (seeds.Length != k || !IsMatrix(old(seeds[..]), D)) ==>
      r == Err(SeedsNotShape(k, D)) && unchanged(seeds)
    ensures seeds != null && seeds.Length == k && IsMatrix(old(seeds[..]), D) ==>
      var out := Loop(Iteration(data, D), threshold, old(seeds[..]), None, 0, fuel);
      r == KeepBest([out], None) && seeds[..] == out.Reps()
  {
    if seeds == null {
      r := Restarts(data, D, k, threshold, ntry, samples, fuel);
      return;
    }
    if seeds.Length != k || !IsMatrix(seeds[..], D) {
      return Err(SeedsNotShape(k, D));
    }
    var out := KMeansRaw(data, D, threshold, seeds, fuel);
    match out
    case Done(f, _) =>
      r := Ok(Some(f));
    case Raised(e, _, _) =>
      r := Err(e);
    case OutOfFuel(_, _) =>
      r := Err(FuelExhausted);
  }

  /** Without centroids the first iteration raises `NoClusters`. */
  lemma {:induction false} LoopRaises(data: seq<seq<real>>, D: nat, threshold: real, fuel: nat)
    requires IsMatrix(data, D) && fuel > 0
    ensures Loop(Iteration(data, D), threshold, [], None, 0, fuel) == Raised(NoClusters, [], 0)
  {
    LoopFails(Iteration(data, D), threshold, [], None, 0, fuel);
  }

  /** A finished run took at least two iterations. Its labels are the
      assignment to the centroids the final iteration started from, not
      to the centroids it returns; every cluster is non-empty and its
      returned centroid is the mean of its points; J is the squared
      distance of every point to its returned centroid, added up, and is
      never negative. */
  lemma {:induction false} DoneFit(data: seq<seq<real>>, D: nat, threshold: real, c: seq<seq<real>>, fuel: nat,
                                   f: Fit<seq<seq<real>>>, n: nat)
    requires IsMatrix(data, D) && IsMatrix(c, D)
    requires Loop(Iteration(data, D), threshold, c, None, 0, fuel) == Done(f, n)
    ensures 2 <= n
    ensures |f.reps| == |c| > 0 && IsMatrix(f.reps, D)
    ensures |f.labels| == |data| && LabelsBelow(f.labels, |c|)
    ensures exists c0 :: IsMatrix(c0, D) && |c0| == |c| && Iterate(data, D, c0) == Stepped(f) &&
                         f.labels == Assign(data, D, c0)
    ensures forall j :: 0 <= j < |c| ==> j in f.labels && f.reps[j] == Centroid(data, D, f.labels, j)
    ensures f.J == Objective(data, D, f.labels, f.reps) && 0.0 <= f.J
  {
    var c1, c0 := LastStart(data, D, threshold, c, fuel, f, n);
    SteppedCentroids(data, D, c0);
    ObjectiveNonNegative(data, D, f.labels, f.reps);
  }

  /** The fit the restart loop keeps comes from the first run of least J.
      It has k centroids of D coordinates, every cluster is non-empty and
      its centroid is the mean of its points, and J is the squared
      distance of every point to its centroid, added up. */
  lemma {:induction false} KeptRun(data: seq<seq<real>>, D: nat, k: nat, threshold: real, samples: seq<seq<int>>,
                                   fuel: nat, f: Fit<seq<seq<real>>>)
    requires IsMatrix(data, D) && forall t :: 0 <= t < |samples| ==> IsSample(samples[t], k, |data|)
    requires KeepBest(Runs(data, D, threshold, k, samples, fuel), None) == Ok(Some(f))
    ensures exists t: nat :: FirstMinimal(Runs(data, D, threshold, k, samples, fuel), t) &&
                             Runs(data, D, threshold, k, samples, fuel)[t].fit == f
    ensures |f.reps| == k > 0 && IsMatrix(f.reps, D)
    ensures |f.labels| == |data| && LabelsBelow(f.labels, k)
    ensures forall j :: 0 <= j < k ==> j in f.labels && f.reps[j] == Centroid(data, D, f.labels, j)
    ensures f.J == Objective(data, D, f.labels, f.reps)
  {
    var c, n := KeptStart(data, D, k, threshold, samples, fuel, f);
    DoneFit(data, D, threshold, c, fuel, f, n);
  }

  /** The starting rows and iteration count of the run the restart loop
      keeps. */
  lemma {:induction false} KeptStart(data: seq<seq<real>>, D: nat, k: nat, threshold: real, samples: seq<seq<int>>,
                                     fuel: nat, f: Fit<seq<seq<real>>>) returns (c: seq<seq<real>>, n: nat)
    requires IsMatrix(data, D) && forall t :: 0 <= t < |samples| ==> IsSample(samples[t], k, |data|)
    requires KeepBest(Runs(data, D, threshold, k, samples, fuel), None) == Ok(Some(f))
    ensures exists t: nat :: FirstMinimal(Runs(data, D, threshold, k, samples, fuel), t) &&
                             Runs(data, D, threshold, k, samples, fuel)[t].fit == f
    ensures IsMatrix(c, D) && |c| == k
    ensures Loop(Iteration(data, D), threshold, c, None, 0, fuel) == Done(f, n)
  {
    var outs := Runs(data, D, threshold, k, samples, fuel);
    KeepBestIsFirstMinimal(outs, f);
    var t: nat :| FirstMinimal(outs, t) && outs[t].fit == f;
    assert IsSample(samples[t], k, |data|);
    c, n := Rows(data, samples[t]), outs[t].iters;
  }

  /** The centroids the last two iterations of a finished run started
      from, c1 and then c0; the final J fell by less than the threshold. */
  lemma {:induction false} LastStart(data: seq<seq<real>>, D: nat, threshold: real, c: seq<seq<real>>, fuel: nat,
                                     f: Fit<seq<seq<real>>>, n: nat) returns (c1: seq<seq<real>>, c0: seq<seq<real>>)
    requires IsMatrix(data, D) && IsMatrix(c, D)
    requires Loop(Iteration(data, D), threshold, c, None, 0, fuel) == Done(f, n)
    ensures 2 <= n && IsMatrix(c1, D) && Iterate(data, D, c1).Stepped? && c0 == Iterate(data, D, c1).fit.reps
    ensures Iterate(data, D, c1).fit.J - f.J < threshold
    ensures IsMatrix(c0, D) && |c0| == |c| && Iterate(data, D, c0) == Stepped(f)
  {
    var step := Iteration(data, D);
    LoopDone(step, threshold, c, None, 0, fuel, f, n);
    c1 :| step(c1).Stepped? && step(step(c1).fit.reps) == Stepped(f) && step(c1).fit.J - f.J < threshold;
    assert IsMatrix(c1, D);
    c0 := Iterate(data, D, c1).fit.reps;
    assert IsMatrix(c0, D);
    ShapeKept(data, D, |c|);
    LoopPreserves(step, RowsOfShape(D, |c|), threshold, c, None, 0, fuel);
    assert RowsOfShape(D, |c|)(f.reps);
  }

  /** J never rises from one iteration to the next, so the fall that
      stopped a finished run lies in [0, threshold): a run with a threshold
      of 0 or below never finishes. */
  lemma {:induction false} FinalFall(data: seq<seq<real>>, D: nat, threshold: real, c: seq<seq<real>>, fuel: nat,
                                     f: Fit<seq<seq<real>>>, n: nat)
    requires IsMatrix(data, D) && IsMatrix(c, D)
    requires Loop(Iteration(data, D), threshold, c, None, 0, fuel) == Done(f, n)
    ensures exists c1 :: IsMatrix(c1, D) && Iterate(data, D, c1).Stepped? &&
                         Iterate(data, D, Iterate(data, D, c1).fit.reps) == Stepped(f) &&
                         0.0 <= Iterate(data, D, c1).fit.J - f.J < threshold
    ensures 0.0 < threshold
  {
    var c1, c0 := LastStart(data, D, threshold, c, fuel, f, n);
    StepNeverRaisesJ(data, D, c1);
  }
}
