/** pyml/clustering/kmedoids.py: `kmedoids`, a single k-medoids run from
    random or given seeds whose `while True` loop also breaks once `iter`
    reaches `maxiter`. */
module PymlKMedoids {
  import opened Clustering
  import opened MedoidStep
  import opened Loops
  import opened MedoidDescent

  /** The `seeds` argument: None, a Python list (copied by `array(seeds)`
      into a fresh array), or an ndarray, which becomes `imedoids` itself
      and so is overwritten in place. */
  datatype Seeds = NoSeeds | ListSeeds(list: seq<int>) | ArraySeeds(arr: array<int>)

  /** The run from `imedoids` on: the capped loop, updating `imedoids` in
      place. */
  method Run(d: seq<seq<real>>, threshold: real, maxiter: int, imedoids: array<int>) returns (out: Outcome<seq<int>>)
    requires IsSquare(d) && InRange(imedoids[..], |d|)
    modifies imedoids
    ensures out == LoopCapped(Iteration(d), threshold, maxiter, old(imedoids[..]), None, 0)
    ensures imedoids[..] == out.Reps()
  {
    var Jprev: Option<real> := None;
    var iter: nat := 0;
    while true
      invariant InRange(imedoids[..], |d|)
      invariant LoopCapped(Iteration(d), threshold, maxiter, imedoids[..], Jprev, iter) ==
        LoopCapped(Iteration(d), threshold, maxiter, old(imedoids[..]), None, 0)
      decreases maxiter - iter
    {
      ghost var m, prev, iters := imedoids[..], Jprev, iter;
      var step := IterateInPlace(d, imedoids);
      assert Iteration(d)(m) == step;
      if step.Failed? {
        return Raised(step.error, imedoids[..], iter);
      }
      iter := iter + 1;
      LoopCappedNext(Iteration(d), threshold, maxiter, m, prev, iters, step.fit, iter);
      if Stops(Jprev, step.fit.J, threshold) {
        return Done(step.fit, iter);
      }
      Jprev := Some(step.fit.J);
      if iter >= maxiter {
        return Done(step.fit, iter);
      }
    }
  }

  /** `kmedoids(distmat, k, threshold, maxiter, seeds)`. Without seeds the
      run starts from `sample`, what `random.sample(range(N), k)` returned;
      given seeds must have length k and name rows of the matrix. The
      result carries the medoids, the labels and J. */
  method KMedoids(d: seq<seq<real>>, k: nat, threshold: real, maxiter: int, seeds: Seeds, sample: seq<int>)
    returns (r: Result<Fit<seq<int>>>)
    requires IsSquare(d)
    requires seeds.NoSeeds? && k <= |d| ==> IsSample(sample, k, |d|)
    modifies if seeds.ArraySeeds? then {seeds.arr} else {}
    ensures seeds.NoSeeds? && k > |d| ==> r == Err(SampleTooLarge)
    ensures seeds.NoSeeds? && k <= |d| ==>
      r == Returned(LoopCapped(Iteration(d), threshold, maxiter, sample, None, 0))
    ensures seeds.ListSeeds? ==> r == Given(d, k, threshold, maxiter, seeds.list)
    ensures seeds.ArraySeeds? ==> r == Given(d, k, threshold, maxiter, old(seeds.arr[..]))
    ensures seeds.ArraySeeds? && seeds.arr.Length == k && InRange(old(seeds.arr[..]), |d|) ==>
      seeds.arr[..] == LoopCapped(Iteration(d), threshold, maxiter, old(seeds.arr[..]), None, 0).Reps()
    ensures seeds.ArraySeeds? && r.Err? && (seeds.arr.Length != k || !InRange(old(seeds.arr[..]), |d|)) ==>
      unchanged(seeds.arr)
  {
    var imedoids: array<int>;
    match seeds {
      case NoSeeds =>
        if k > |d| {
          return Err(SampleTooLarge);
        }
        imedoids := new int[k](a requires 0 <= a < k => sample[a]);
        assert imedoids[..] == sample;
      case ListSeeds(list) =>
        imedoids := new int[|list|](a requires 0 <= a < |list| => list[a]);
        assert imedoids[..] == list;
      case ArraySeeds(arr) =>
        imedoids := arr;
    }
    if !seeds.NoSeeds? {
      if imedoids.Length != k {
        return Err(SeedsNotLength(k));
      }
      var bad := FirstOutOfRange(imedoids[..], |d|);
      if bad.Some? {
        return Err(SeedOutOfRange(bad.value));
      }
    }
    var out := Run(d, threshold, maxiter, imedoids);
    r := Returned(out);
  }

  /** What a run from given seeds s returns: the shape and range checks,
      then the capped loop. */
  function Given(d: seq<seq<real>>, k: nat, threshold: real, maxiter: int, s: seq<int>): (r: Result<Fit<seq<int>>>)
    requires IsSquare(d)
    ensures |s| != k ==> r == Err(SeedsNotLength(k))
    ensures |s| == k && !InRange(s, |d|) ==> r.Err? && r.error.SeedOutOfRange? && r.error.position < k
  {
    if |s| != k then Err(SeedsNotLength(k))
    else match FirstOutOfRange(s, |d|)
      case Some(p) => Err(SeedOutOfRange(p))
      case None => Returned(LoopCapped(Iteration(d), threshold, maxiter, s, None, 0))
  }

  /** A run always ends, and it does not stop at an impossible count:
      a finished run took at least one iteration and at most `maxiter`,
      or exactly one when `maxiter` is below 1. */
  lemma {:induction false} RunIterations(d: seq<seq<real>>, threshold: real, maxiter: int, m: seq<int>)
    ensures var out := LoopCapped(Iteration(d), threshold, maxiter, m, None, 0);
      !out.OutOfFuel? && (out.Done? ==> 1 <= out.iters <= (if maxiter < 1 then 1 else maxiter))
  {
    LoopCappedBounds(Iteration(d), threshold, maxiter, m, None, 0);
  }

  /** Distinct seeds over a matrix that is zero exactly on its diagonal
      and never negative make the run finish, with distinct medoids. */
  lemma {:induction false} RunNeverRaises(d: seq<seq<real>>, threshold: real, maxiter: int, m: seq<int>)
    requires IsSquare(d) && InRange(m, |d|) && |m| > 0
    requires Distinct(m) && Separates(d) && NonNegative(d)
    ensures var out := LoopCapped(Iteration(d), threshold, maxiter, m, None, 0);
      out.Done? && Distinct(out.fit.reps)
  {
    DistinctMedoidsKept(d);
    LoopCappedKeeps(Iteration(d), DistinctRows(d), threshold, maxiter, m, None, 0);
  }

  /** A finished run stopped on the threshold test unless it reached
      `maxiter`. Its labels are the assignment to the medoids the final
      iteration started from; its medoids are distinct, each is labelled
      with its own cluster and is that cluster's re-chosen medoid, and J
      is the sum of the clusters' least within-cluster sums, never
      negative when the matrix is not. */
  lemma {:induction false} RunFit(d: seq<seq<real>>, threshold: real, maxiter: int, m: seq<int>, f: Fit<seq<int>>, n: nat)
    requires IsSquare(d) && InRange(m, |d|)
    requires LoopCapped(Iteration(d), threshold, maxiter, m, None, 0) == Done(f, n)
    ensures n < maxiter ==>
      exists m1 :: Iteration(d)(m1).Stepped? && Iteration(d)(Iteration(d)(m1).fit.reps) == Stepped(f) &&
        Iteration(d)(m1).fit.J - f.J < threshold
    ensures exists m0 :: InRange(m0, |d|) && |m0| == |m| && Iterate(d, m0) == Stepped(f) && f.labels == Assign(d, m0)
    ensures |f.reps| == |m| > 0 && Distinct(f.reps) && InRange(f.reps, |d|)
    ensures |f.labels| == |d| && forall i :: 0 <= i < |d| ==> f.labels[i] < |m|
    ensures forall j :: 0 <= j < |m| ==> f.labels[f.reps[j]] == j && f.reps[j] == NewMedoid(d, f.labels, j)
    ensures f.J == Cost(d, f.labels, f.reps)
    ensures NonNegative(d) ==> 0.0 <= f.J
  {
    var step := Iteration(d);
    LoopCappedDone(step, threshold, maxiter, m, None, 0, f, n);
    var m0 :| step(m0) == Stepped(f);
    assert InRange(m0, |d|);
    ShapeKept(d, |m|);
    LoopCappedPreserves(step, RowsOfLength(d, |m|), threshold, maxiter, m, None, 0);
    SteppedMedoids(d, m0);
    if NonNegative(d) {
      CostNonNegative(d, f.labels, f.reps);
    }
  }

  /** Over a matrix that is zero exactly on its diagonal and never
      negative, J never rises from one iteration to the next, so a run
      that stopped before `maxiter` did so on a fall in [0, threshold):
      with a threshold of 0 or below every finished run takes `maxiter`
      iterations (or one, when `maxiter` is below 1). */
  lemma {:induction false} FinalFall(d: seq<seq<real>>, threshold: real, maxiter: int, m: seq<int>,
                                     f: Fit<seq<int>>, n: nat)
    requires IsSquare(d) && Separates(d) && NonNegative(d)
    requires LoopCapped(Iteration(d), threshold, maxiter, m, None, 0) == Done(f, n)
    requires n < maxiter
    ensures exists m1 :: InRange(m1, |d|) && Iterate(d, m1).Stepped? &&
                         Iterate(d, Iterate(d, m1).fit.reps) == Stepped(f) &&
                         0.0 <= Iterate(d, m1).fit.J - f.J < threshold
    ensures 0.0 < threshold
  {
    var step := Iteration(d);
    LoopCappedDone(step, threshold, maxiter, m, None, 0, f, n);
    var m1 :| step(m1).Stepped? && step(step(m1).fit.reps) == Stepped(f) && step(m1).fit.J - f.J < threshold;
    assert InRange(m1, |d|);
    StepNeverRaisesJ(d, m1);
  }
}
