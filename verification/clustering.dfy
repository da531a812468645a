/** Definitions shared by the k-means and k-medoids models: numpy's
    first-occurrence argmin, sums, cluster membership (`(labels == j).nonzero()`),
    the `Jprev - J < threshold` stopping rule and the keep-the-best restart rule. */
module Clustering {

  datatype Option<T> = None | Some(value: T)

  /** Why a call raises instead of returning. */
  datatype Error =
    | NoClusters                      // argmin over zero representatives (k == 0)
    | EmptyCluster(cluster: nat)      // no point carries this label
    | SeedsNotLength(k: nat)          // 'seeds should be a length-k array'
    | SeedsNotShape(k: nat, dim: nat) // 'seeds should be a k-by-D array'
    | SeedOutOfRange(position: nat)   // a seed that is no row of the matrix
    | SampleTooLarge                  // random.sample of more than N indices
    | FuelExhausted                   // the model's bound on an uncapped loop ran out

  datatype Result<T> = Ok(value: T) | Err(error: Error)

  /** What one finished run hands back: the representatives (medoid indices
      or centroid rows), the labels and the objective J. */
  datatype Fit<R> = Fit(reps: R, labels: seq<nat>, J: real)

  /** One iteration either completes or raises, leaving the representatives
      as far as it had updated them. */
  datatype Step<R> = Stepped(fit: Fit<R>) | Failed(error: Error, reps: R)
  {
    /** The representatives the iteration leaves behind. */
    function Reps(): R
    {
      match this
      case Stepped(f) => f.reps
      case Failed(_, r) => r
    }
  }

  /** The result of a whole core loop. */
  datatype Outcome<R> =
    | Done(fit: Fit<R>, iters: nat)
    | Raised(error: Error, state: R, iters: nat)
    | OutOfFuel(state: R, iters: nat)
  {
    /** The representatives the loop leaves behind (in place, in the source). */
    function Reps(): R
    {
      match this
      case Done(f, _) => f.reps
      case Raised(_, r, _) => r
      case OutOfFuel(r, _) => r
    }
  }

  /** What a driver hands back from a single run: the run's fit, or the
      error it raised. */
  function Returned<R>(out: Outcome<R>): Result<Fit<R>>
  {
    match out
    case Done(f, _) => Ok(f)
    case Raised(e, _, _) => Err(e)
    case OutOfFuel(_, _) => Err(FuelExhausted)
  }

  /** `Jprev - J < threshold`, where the first iteration has `Jprev = inf`
      and so never stops. */
  predicate Stops(prev: Option<real>, J: real, threshold: real)
  {
    prev.Some? && prev.value - J < threshold
  }

  /** numpy's argmin: the first index holding the minimum. */
  function ArgMin(s: seq<real>): (r: nat)
    requires |s| > 0
    ensures r < |s|
  {
    if |s| == 1 then 0
    else
      var m := ArgMin(s[..|s| - 1]);
      if s[|s| - 1] < s[m] then |s| - 1 else m
  }

  /** The argmin holds a least entry, and every entry before it is
      strictly larger. */
  lemma {:induction false} ArgMinIsFirstMin(s: seq<real>)
    requires |s| > 0
    ensures forall i :: 0 <= i < |s| ==> s[ArgMin(s)] <= s[i]
    ensures forall i :: 0 <= i < ArgMin(s) ==> s[ArgMin(s)] < s[i]
  {
    if |s| > 1 {
      var p := s[..|s| - 1];
      ArgMinIsFirstMin(p);
      forall i | 0 <= i < |p| ensures s[i] == p[i] {
      }
    }
  }

  /** `(labels == j).nonzero()[0]`: the points labelled j, in increasing order. */
  function Members(labels: seq<nat>, j: nat): (idx: seq<nat>)
    ensures forall a :: 0 <= a < |idx| ==> idx[a] < |labels| && labels[idx[a]] == j
  {
    if |labels| == 0 then []
    else
      var n := |labels| - 1;
      Members(labels[..n], j) + (if labels[n] == j then [n] else [])
  }

  /** The members of j are listed in increasing order, each once. */
  lemma {:induction false} MembersIncreasing(labels: seq<nat>, j: nat)
    ensures forall a, b :: 0 <= a < b < |Members(labels, j)| ==> Members(labels, j)[a] < Members(labels, j)[b]
  {
    if |labels| > 0 {
      var n := |labels| - 1;
      MembersIncreasing(labels[..n], j);
    }
  }

  /** Every point labelled j is listed among the members of j. */
  lemma {:induction false} MemberPosition(labels: seq<nat>, j: nat, i: nat) returns (a: nat)
    requires i < |labels| && labels[i] == j
    ensures a < |Members(labels, j)| && Members(labels, j)[a] == i
  {
    var n := |labels| - 1;
    if i == n {
      a := |Members(labels[..n], j)|;
    } else {
      a := MemberPosition(labels[..n], j, i);
    }
  }

  /** Cluster j has no member exactly when no point is labelled j. */
  lemma {:induction false} MembersEmpty(labels: seq<nat>, j: nat)
    ensures |Members(labels, j)| == 0 <==> j !in labels
  {
    if j in labels {
      var i :| 0 <= i < |labels| && labels[i] == j;
      var a := MemberPosition(labels, j, i);
    } else if |labels| > 0 {
      var n := |labels| - 1;
      assert j !in labels[..n] by {
        forall i | 0 <= i < n ensures labels[..n][i] != j {
          assert labels[..n][i] == labels[i];
        }
      }
      MembersEmpty(labels[..n], j);
    }
  }

  /** The first cluster below k that no point is labelled with, if any. */
  function FirstEmpty(labels: seq<nat>, k: nat): (r: Option<nat>)
    ensures r.Some? ==> r.value < k && r.value !in labels
    ensures r.Some? ==> forall j :: 0 <= j < r.value ==> j in labels
    ensures r.None? <==> forall j :: 0 <= j < k ==> j in labels
  {
    if k == 0 then None
    else match FirstEmpty(labels, k - 1)
      case Some(j) => Some(j)
      case None => if k - 1 in labels then None else Some(k - 1)
  }

  /** The first empty cluster is the one below k that is empty while every
      cluster before it is not. */
  lemma {:induction false} FirstEmptyIs(labels: seq<nat>, k: nat, j: nat)
    requires j < k && j !in labels && forall c :: 0 <= c < j ==> c in labels
    ensures FirstEmpty(labels, k) == Some(j)
  {
    if j < k - 1 {
      FirstEmptyIs(labels, k - 1, j);
    }
  }

  predicate Distinct(s: seq<int>)
  {
    forall a, b :: 0 <= a < b < |s| ==> s[a] != s[b]
  }

  /** Every index names one of n rows. */
  predicate InRange(m: seq<int>, n: nat)
  {
    forall j :: 0 <= j < |m| ==> 0 <= m[j] < n
  }

  /** The first seed that names no row of the matrix, if any. */
  function FirstOutOfRange(m: seq<int>, n: nat): (r: Option<nat>)
    ensures r.None? <==> InRange(m, n)
    ensures r.Some? ==> r.value < |m| && !(0 <= m[r.value] < n) && InRange(m[..r.value], n)
  {
    if |m| == 0 then None
    else match FirstOutOfRange(m[..|m| - 1], n)
      case Some(p) => Some(p)
      case None => if 0 <= m[|m| - 1] < n then None else Some(|m| - 1)
  }

  /** What `random.sample(range(n), k)` returns. */
  predicate IsSample(s: seq<int>, k: nat, n: nat)
  {
    |s| == k && Distinct(s) && InRange(s, n)
  }

  /** `range(ntry)` has this many elements. */
  function Tries(ntry: int): nat
  {
    if ntry < 0 then 0 else ntry
  }

  /** The restart loop of a driver, from the state where `best` is the run
      kept so far (None while `minJ` is still inf): a run that raises ends
      the driver with its error, and a later run replaces the kept one only
      when its J is strictly smaller. */
  function KeepBest<R>(outs: seq<Outcome<R>>, best: Option<Fit<R>>): Result<Option<Fit<R>>>
  {
    if |outs| == 0 then Ok(best)
    else match outs[0]
      case Done(f, _) =>
        KeepBest(outs[1..], if best.None? || f.J < best.value.J then Some(f) else best)
      case Raised(e, _, _) => Err(e)
      case OutOfFuel(_, _) => Err(FuelExhausted)
  }

  /** Run t finished with the least J of all runs, and every earlier run's J
      is strictly larger. */
  predicate FirstMinimal<R>(outs: seq<Outcome<R>>, t: nat)
  {
    t < |outs| &&
    (forall u :: 0 <= u < |outs| ==> outs[u].Done?) &&
    (forall u :: 0 <= u < |outs| ==> outs[t].fit.J <= outs[u].fit.J) &&
    (forall u :: 0 <= u < t ==> outs[t].fit.J < outs[u].fit.J)
  }

  lemma {:induction false} KeepBestFrom<R>(outs: seq<Outcome<R>>, best: Option<Fit<R>>, f: Fit<R>)
    requires KeepBest(outs, best) == Ok(Some(f))
    ensures forall u :: 0 <= u < |outs| ==> outs[u].Done? && f.J <= outs[u].fit.J
    ensures best.Some? ==> f.J <= best.value.J
    ensures (best == Some(f) && (forall u :: 0 <= u < |outs| ==> f.J <= outs[u].fit.J)) ||
            (exists t :: 0 <= t < |outs| && outs[t].fit == f &&
               (best.Some? ==> f.J < best.value.J) &&
               forall u :: 0 <= u < t ==> f.J < outs[u].fit.J)
  {
    if |outs| > 0 {
      var g := outs[0].fit;
      var best' := if best.None? || g.J < best.value.J then Some(g) else best;
      KeepBestFrom(outs[1..], best', f);
      forall u | 0 <= u < |outs|
        ensures outs[u].Done? && f.J <= outs[u].fit.J
      {
        if u > 0 {
          assert outs[u] == outs[1..][u - 1];
        }
      }
      if best' == Some(f) {
        if best != Some(f) {
          assert outs[0].fit == f;
        }
      } else {
        var t :| 0 <= t < |outs[1..]| && outs[1..][t].fit == f &&
          f.J < best'.value.J && forall u :: 0 <= u < t ==> f.J < outs[1..][u].fit.J;
        forall u | 0 <= u < t + 1
          ensures f.J < outs[u].fit.J
        {
          if u > 0 {
            assert outs[u] == outs[1..][u - 1];
          }
        }
        assert outs[t + 1] == outs[1..][t];
      }
    }
  }

  /** The restart loop keeps the first run whose J is minimal. */
  lemma {:induction false} KeepBestIsFirstMinimal<R>(outs: seq<Outcome<R>>, f: Fit<R>)
    requires KeepBest(outs, None) == Ok(Some(f))
    ensures exists t: nat :: FirstMinimal(outs, t) && outs[t].fit == f
  {
    KeepBestFrom(outs, None, f);
    var t :| 0 <= t < |outs| && outs[t].fit == f && forall u :: 0 <= u < t ==> f.J < outs[u].fit.J;
    assert FirstMinimal(outs, t);
  }

  /** The restart loop returns normally exactly when no run raised, and it
      returns nothing exactly when there was no run. */
  lemma {:induction false} KeepBestOk<R>(outs: seq<Outcome<R>>, best: Option<Fit<R>>)
    ensures KeepBest(outs, best).Ok? <==> forall u :: 0 <= u < |outs| ==> outs[u].Done?
    ensures KeepBest(outs, best) == Ok(None) <==> best.None? && |outs| == 0
  {
    if |outs| > 0 {
      if outs[0].Done? {
        var g := outs[0].fit;
        KeepBestOk(outs[1..], if best.None? || g.J < best.value.J then Some(g) else best);
        if forall u :: 0 <= u < |outs[1..]| ==> outs[1..][u].Done? {
          forall u | 0 <= u < |outs| ensures outs[u].Done? {
            if u > 0 { assert outs[u] == outs[1..][u - 1]; }
          }
        } else {
          var u :| 0 <= u < |outs[1..]| && !outs[1..][u].Done?;
          assert !outs[u + 1].Done?;
        }
      }
    }
  }

  /** When the driver raises, it raises the error of the first run that
      did not finish, and every run before it finished. */
  lemma {:induction false} KeepBestErr<R>(outs: seq<Outcome<R>>, best: Option<Fit<R>>, e: Error)
    requires KeepBest(outs, best) == Err(e)
    ensures exists t :: (0 <= t < |outs| && !outs[t].Done? &&
      e == (if outs[t].Raised? then outs[t].error else FuelExhausted) &&
      forall u :: 0 <= u < t ==> outs[u].Done?)
  {
    if outs[0].Done? {
      var g := outs[0].fit;
      KeepBestErr(outs[1..], if best.None? || g.J < best.value.J then Some(g) else best, e);
      var t :| 0 <= t < |outs[1..]| && !outs[1..][t].Done? &&
        e == (if outs[1..][t].Raised? then outs[1..][t].error else FuelExhausted) &&
        forall u :: 0 <= u < t ==> outs[1..][u].Done?;
      forall u | 0 <= u < t + 1 ensures outs[u].Done? {
        if u > 0 { assert outs[u] == outs[1..][u - 1]; }
      }
      assert outs[t + 1] == outs[1..][t];
    } else {
      assert !outs[0].Done?;
    }
  }
}
