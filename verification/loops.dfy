/** The outer loops of the three cores, written once over the step they
    repeat: `_kmedoids` and `_kmeans` loop with no cap, pyml's `kmedoids`
    stops after `maxiter` iterations at the latest. Every loop runs the
    step, counts it in `iter`, stops once `Jprev - J < threshold` (with
    `Jprev = inf` at first) and otherwise carries J into `Jprev`. */
module Loops {
  import opened Clustering

  /** The uncapped `while True` loop from representatives r, with `Jprev`
      prev (None for inf) and `iter` iters. The source has no cap; `fuel`
      bounds the number of further iterations the model runs. */
  function Loop<R>(step: R -> Step<R>, threshold: real, r: R, prev: Option<real>, iters: nat, fuel: nat)
    : (out: Outcome<R>)
    ensures out.Done? ==> iters < out.iters
    decreases fuel
  {
    if fuel == 0 then OutOfFuel(r, iters)
    else match step(r)
      case Failed(e, r') => Raised(e, r', iters)
      case Stepped(f) =>
        if Stops(prev, f.J, threshold) then Done(f, iters + 1)
        else Loop(step, threshold, f.reps, Some(f.J), iters + 1, fuel - 1)
  }

  /** A completed iteration either ends the loop or hands its
      representatives, its J and the counters on to the next one. */
  lemma {:induction false} LoopNext<R>(step: R -> Step<R>, threshold: real, r: R, prev: Option<real>, iters: nat,
                                       fuel: nat, f: Fit<R>, iters': nat, fuel': nat)
    requires fuel > 0 && step(r) == Stepped(f) && iters' == iters + 1 && fuel' == fuel - 1
    ensures Stops(prev, f.J, threshold) ==> Loop(step, threshold, r, prev, iters, fuel) == Done(f, iters')
    ensures !Stops(prev, f.J, threshold) ==>
      Loop(step, threshold, r, prev, iters, fuel) == Loop(step, threshold, f.reps, Some(f.J), iters', fuel')
  {
  }

  /** An iteration that raises ends the loop with its error. */
  lemma {:induction false} LoopFails<R>(step: R -> Step<R>, threshold: real, r: R, prev: Option<real>, iters: nat,
                                        fuel: nat)
    requires fuel > 0 && step(r).Failed?
    ensures Loop(step, threshold, r, prev, iters, fuel) == Raised(step(r).error, step(r).reps, iters)
  {
  }

  /** A run finishes with a completed iteration whose J fell by less than
      the threshold since the completed iteration before it; from
      `Jprev = inf` that takes at least two iterations. */
  lemma {:induction false} LoopDone<R>(step: R -> Step<R>, threshold: real, r: R, prev: Option<real>, iters: nat,
                                       fuel: nat, f: Fit<R>, n: nat)
    requires Loop(step, threshold, r, prev, iters, fuel) == Done(f, n)
    ensures prev.None? ==> iters + 2 <= n
    ensures (prev.Some? && step(r) == Stepped(f) && prev.value - f.J < threshold) ||
      exists r1 :: step(r1).Stepped? && step(step(r1).fit.reps) == Stepped(f) && step(r1).fit.J - f.J < threshold
    decreases fuel
  {
    var g := step(r).fit;
    if !Stops(prev, g.J, threshold) {
      var it, left := iters + 1, fuel - 1;
      LoopNext(step, threshold, r, prev, iters, fuel, g, it, left);
      LoopDone(step, threshold, g.reps, Some(g.J), it, left, f, n);
    }
  }

  /** A property of the representatives that every iteration keeps and
      that lets every iteration complete makes the loop never raise, and
      holds of what the loop leaves behind. */
  lemma {:induction false} LoopKeeps<R>(step: R -> Step<R>, inv: R -> bool, threshold: real, r: R,
                                        prev: Option<real>, iters: nat, fuel: nat)
    requires forall x :: inv(x) ==> step(x).Stepped? && inv(step(x).fit.reps)
    requires inv(r)
    ensures !Loop(step, threshold, r, prev, iters, fuel).Raised?
    ensures inv(Loop(step, threshold, r, prev, iters, fuel).Reps())
    decreases fuel
  {
    if fuel > 0 {
      var f := step(r).fit;
      var it, left := iters + 1, fuel - 1;
      LoopNext(step, threshold, r, prev, iters, fuel, f, it, left);
      if !Stops(prev, f.J, threshold) {
        LoopKeeps(step, inv, threshold, f.reps, Some(f.J), it, left);
      }
    }
  }

  /** A property of the representatives that every iteration keeps,
      whether it completes or raises, holds of what the loop leaves. */
  lemma {:induction false} LoopPreserves<R>(step: R -> Step<R>, inv: R -> bool, threshold: real, r: R,
                                            prev: Option<real>, iters: nat, fuel: nat)
    requires forall x :: inv(x) ==> inv(step(x).Reps())
    requires inv(r)
    ensures inv(Loop(step, threshold, r, prev, iters, fuel).Reps())
    decreases fuel
  {
    if fuel > 0 && step(r).Stepped? {
      var f := step(r).fit;
      var it, left := iters + 1, fuel - 1;
      LoopNext(step, threshold, r, prev, iters, fuel, f, it, left);
      if !Stops(prev, f.J, threshold) {
        LoopPreserves(step, inv, threshold, f.reps, Some(f.J), it, left);
      }
    }
  }

  /** pyml's loop: like `Loop`, but after an iteration that does not stop
      it, `iter >= maxiter` breaks out as well. */
  function LoopCapped<R>(step: R -> Step<R>, threshold: real, maxiter: int, r: R, prev: Option<real>, iters: nat)
    : (out: Outcome<R>)
    ensures !out.OutOfFuel?
    decreases maxiter - iters
  {
    match step(r)
    case Failed(e, r') => Raised(e, r', iters)
    case Stepped(f) =>
      if Stops(prev, f.J, threshold) || iters + 1 >= maxiter then Done(f, iters + 1)
      else LoopCapped(step, threshold, maxiter, f.reps, Some(f.J), iters + 1)
  }

  lemma {:induction false} LoopCappedNext<R>(step: R -> Step<R>, threshold: real, maxiter: int, r: R,
                                             prev: Option<real>, iters: nat, f: Fit<R>, iters': nat)
    requires step(r) == Stepped(f) && iters' == iters + 1
    ensures Stops(prev, f.J, threshold) || iters' >= maxiter ==>
      LoopCapped(step, threshold, maxiter, r, prev, iters) == Done(f, iters')
    ensures !Stops(prev, f.J, threshold) && iters' < maxiter ==>
      LoopCapped(step, threshold, maxiter, r, prev, iters) == LoopCapped(step, threshold, maxiter, f.reps, Some(f.J), iters')
  {
  }

  /** A capped run that finishes has counted at least one more iteration,
      and no more than `maxiter` unless it started at or beyond it. */
  lemma {:induction false} LoopCappedBounds<R>(step: R -> Step<R>, threshold: real, maxiter: int, r: R,
                                               prev: Option<real>, iters: nat)
    ensures var out := LoopCapped(step, threshold, maxiter, r, prev, iters);
      iters <= out.iters && (out.Done? ==> iters < out.iters) &&
      out.iters <= (if iters < maxiter then maxiter else iters + 1)
    decreases maxiter - iters
  {
    if step(r).Stepped? {
      var f := step(r).fit;
      var it := iters + 1;
      LoopCappedNext(step, threshold, maxiter, r, prev, iters, f, it);
      if !Stops(prev, f.J, threshold) && it < maxiter {
        LoopCappedBounds(step, threshold, maxiter, f.reps, Some(f.J), it);
      }
    }
  }

  lemma {:induction false} LoopCappedPreserves<R>(step: R -> Step<R>, inv: R -> bool, threshold: real, maxiter: int,
                                                  r: R, prev: Option<real>, iters: nat)
    requires forall x :: inv(x) ==> inv(step(x).Reps())
    requires inv(r)
    ensures inv(LoopCapped(step, threshold, maxiter, r, prev, iters).Reps())
    decreases maxiter - iters
  {
    if step(r).Stepped? {
      var f := step(r).fit;
      var it := iters + 1;
      LoopCappedNext(step, threshold, maxiter, r, prev, iters, f, it);
      if !Stops(prev, f.J, threshold) && it < maxiter {
        LoopCappedPreserves(step, inv, threshold, maxiter, f.reps, Some(f.J), it);
      }
    }
  }

  lemma {:induction false} LoopCappedKeeps<R>(step: R -> Step<R>, inv: R -> bool, threshold: real, maxiter: int,
                                              r: R, prev: Option<real>, iters: nat)
    requires forall x :: inv(x) ==> step(x).Stepped? && inv(step(x).fit.reps)
    requires inv(r)
    ensures LoopCapped(step, threshold, maxiter, r, prev, iters).Done?
    ensures inv(LoopCapped(step, threshold, maxiter, r, prev, iters).Reps())
    decreases maxiter - iters
  {
    var f := step(r).fit;
    var it := iters + 1;
    LoopCappedNext(step, threshold, maxiter, r, prev, iters, f, it);
    if !Stops(prev, f.J, threshold) && it < maxiter {
      LoopCappedKeeps(step, inv, threshold, maxiter, f.reps, Some(f.J), it);
    }
  }

  /** A capped run that finishes ends with a completed iteration; unless
      it reached `maxiter`, that iteration's J fell by less than the
      threshold since the completed iteration before it. */
  lemma {:induction false} LoopCappedDone<R>(step: R -> Step<R>, threshold: real, maxiter: int, r: R,
                                             prev: Option<real>, iters: nat, f: Fit<R>, n: nat)
    requires LoopCapped(step, threshold, maxiter, r, prev, iters) == Done(f, n)
    ensures exists r1 :: step(r1) == Stepped(f)
    ensures n < maxiter ==>
      (prev.Some? && step(r) == Stepped(f) && prev.value - f.J < threshold) ||
      exists r1 :: step(r1).Stepped? && step(step(r1).fit.reps) == Stepped(f) && step(r1).fit.J - f.J < threshold
    decreases maxiter - iters
  {
    var g := step(r).fit;
    var it := iters + 1;
    LoopCappedNext(step, threshold, maxiter, r, prev, iters, g, it);
    if !Stops(prev, g.J, threshold) && it < maxiter {
      LoopCappedDone(step, threshold, maxiter, g.reps, Some(g.J), it, f, n);
    }
  }
}
