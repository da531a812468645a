# k-means and k-medoids clustering, modelled in Dafny

This project models the clustering core of the `mltk`/`pyml` Python
packages:

- `mltk/cluster/kmedoids.py`: `_kmedoids`, the raw k-medoids loop over an
  N-by-N dissimilarity matrix, and `kmedoids`, its driver.
- `mltk/cluster/kmeans.py`: `_kmeans`, the raw k-means loop over an N-by-D
  data array, and `kmeans`, its driver.
- `pyml/clustering/kmedoids.py`: `kmedoids`, a single k-medoids run whose
  loop is capped at `maxiter` iterations.

An iteration labels every point with its nearest representative, using
numpy's first-occurrence `argmin`. It then re-chooses every representative
from its cluster:

- in k-medoids, the member with the least dissimilarity sum;
- in k-means, the mean of the members.

It then computes the objective J. The loop stops once `Jprev - J <
threshold`, where `Jprev` starts at `inf`. The mltk drivers either run
once from given seeds, which they check for shape, or keep the best of
`ntry` runs from random samples. The kept run is the first run whose J
equals the minimum over all runs.

The model keeps the source's imperative form:

- Each `while True` loop is a method over an `array` updated in place:
  `imedoids` in k-medoids, the k centroid rows in k-means.
- Each inner `for j` loop is a method with loop invariants.
- Each driver is a method.

Every method is proved equal to a recursive specification function.
`Loops.Loop` is the uncapped loop and `Loops.LoopCapped` is pyml's capped
loop. Both are written once over the step function they repeat.
`MedoidStep.Iterate` and `KMeansStep.Iterate` are the single iterations.
`Clustering.KeepBest` is the restart rule.

The lemmas then prove what the source relies on:

- labels name the nearest representative;
- a re-chosen medoid minimises its cluster's dissimilarity sum;
- a mean minimises its cluster's squared sum;
- a finished run's fit is consistent;
- the restart rule keeps the first minimal run;
- which inputs make an iteration raise.

They also prove that J never rises from one iteration to the next. For
k-medoids this needs a matrix that is zero exactly on its diagonal and
never negative. Hence the fall that stops a run lies in `[0, threshold)`.

Modules, one per file:

| file | module |
|---|---|
| clustering.dfy | `Clustering`: shared datatypes, argmin, cluster membership, the stop and restart rules |
| loops.dfy | `Loops`: the uncapped and capped outer loops as functions of the step |
| regroup.dfy | `Regroup`: sums over labelled points, taken point by point or cluster by cluster |
| medoid_step.dfy | `MedoidStep`: one k-medoids iteration, shared by both k-medoids files |
| medoid_descent.dfy | `MedoidDescent`: a k-medoids iteration never raises J |
| mltk_kmedoids.dfy | `MltkKMedoids`: `_kmedoids` and `kmedoids` of mltk |
| pyml_kmedoids.dfy | `PymlKMedoids`: `kmedoids` of pyml |
| kmeans_step.dfy | `KMeansStep`: one k-means iteration |
| kmeans_descent.dfy | `KMeansDescent`: a k-means iteration never raises J |
| mltk_kmeans.dfy | `MltkKMeans`: `_kmeans` and `kmeans` of mltk |

## Model

| member | source | states |
|---|---|---|
| Clustering.ArgMinIsFirstMin | mltk/cluster/kmedoids.py:79 | `argmin` picks an entry no larger than any other. Every entry before it is strictly larger, so ties go to the first index. |
| Clustering.Members | mltk/cluster/kmedoids.py:83 | Every index `(labels == j).nonzero()` lists is a point carrying label j. |
| Clustering.MembersIncreasing | mltk/cluster/kmedoids.py:83 | The members of cluster j are listed in strictly increasing order. |
| Clustering.MemberPosition | mltk/cluster/kmedoids.py:83 | Every point labelled j appears in the member list of j. |
| Clustering.MembersEmpty | mltk/cluster/kmedoids.py:83-86 | Cluster j has no members exactly when no point carries label j. That is the case where `distsum.argmin()` raises. |
| Clustering.FirstEmpty | mltk/cluster/kmedoids.py:82-87 | Gives the first cluster below k that no point carries; every earlier cluster is non-empty. It is None exactly when all k clusters are non-empty. |
| Clustering.FirstEmptyIs | mltk/cluster/kmedoids.py:82-87 | An empty cluster j whose predecessors are all non-empty is the first empty cluster. |
| Clustering.FirstOutOfRange | mltk/cluster/kmedoids.py:77 | None exactly when every seed names a row of the matrix. Otherwise gives the first seed that names no row. |
| Clustering.KeepBestFrom | mltk/cluster/kmedoids.py:53-56 | From any kept run, the run kept at the end has a J no larger than any later run's. It is either the original or a later run with strictly smaller J than every run before it. |
| Clustering.KeepBestIsFirstMinimal | mltk/cluster/kmedoids.py:48-56 | The restart loop keeps a run of least J. Every earlier run has a strictly larger J. |
| Clustering.KeepBestOk | mltk/cluster/kmedoids.py:48-56 | The driver returns normally exactly when every run finished. It returns no fit exactly when there was no run. |
| Clustering.KeepBestErr | mltk/cluster/kmedoids.py:48-52 | A raising driver raises the error of the first run that did not finish, and every run before it finished. |
| Loops.Loop | mltk/cluster/kmedoids.py:70-98 | A finished uncapped loop has counted more iterations than it started with. |
| Loops.LoopNext | mltk/cluster/kmedoids.py:90-96 | After a completed iteration, `Jprev - J < threshold` ends the loop with that iteration's fit. Otherwise the loop goes on from its representatives with `Jprev = J` and `iter + 1`. |
| Loops.LoopFails | mltk/cluster/kmedoids.py:82-87 | An iteration that raises ends the loop with that error and with the representatives as it left them. |
| Loops.LoopDone | mltk/cluster/kmedoids.py:94-95 | A finished run took at least two iterations from `Jprev = inf`. Its final iteration came from a completed one whose J exceeded the final J by less than the threshold. |
| Loops.LoopKeeps | mltk/cluster/kmedoids.py:75-96 | A property that every iteration keeps, and that lets every iteration complete, means the loop never raises. The property holds of what the loop leaves behind. |
| Loops.LoopPreserves | mltk/cluster/kmedoids.py:75-96 | A property that every iteration keeps, completed or not, holds of the representatives the loop leaves behind. |
| Loops.LoopCapped | pyml/clustering/kmedoids.py:37-65 | The capped loop always ends: it finishes or raises. |
| Loops.LoopCappedNext | pyml/clustering/kmedoids.py:57-65 | After a completed iteration, the threshold test or `iter >= maxiter` ends the loop with that fit. Otherwise the loop goes on with `Jprev = J`. |
| Loops.LoopCappedBounds | pyml/clustering/kmedoids.py:39-65 | A capped run counts at least one iteration when it finishes. It counts at most `maxiter`, or exactly one when `maxiter` is at most 1. |
| Loops.LoopCappedPreserves | pyml/clustering/kmedoids.py:42-65 | A property every iteration keeps holds of what the capped loop leaves behind. |
| Loops.LoopCappedKeeps | pyml/clustering/kmedoids.py:42-65 | A property every iteration keeps, and that lets every iteration complete, makes the capped loop finish. The property holds of its result. |
| Loops.LoopCappedDone | pyml/clustering/kmedoids.py:61-65 | A finished capped run ends on a completed iteration. Below `maxiter`, that iteration's J fell by less than the threshold. |
| Regroup.PointsByCluster | mltk/cluster/kmedoids.py:80-88 | Summing each point's term against its own cluster equals summing cluster by cluster over the members of each cluster. |
| Regroup.ClusterTotalMonotone | mltk/cluster/kmedoids.py:82-88 | If no cluster's sum grows, the total does not grow. |
| Regroup.PointTotalMonotone | mltk/cluster/kmedoids.py:79-80 | If no point's term grows, the total does not grow. |
| MedoidStep.Assign | mltk/cluster/kmedoids.py:79 | Every one of the N points gets a label naming one of the k medoids. |
| MedoidStep.AssignNearest | mltk/cluster/kmedoids.py:77-79 | Each point's medoid is at least as near as every other medoid, and strictly nearer than every medoid listed before it. |
| MedoidStep.NewMedoid | mltk/cluster/kmedoids.py:83-87 | The re-chosen medoid of a non-empty cluster j is a point labelled j. |
| MedoidStep.NewMedoidMinimises | mltk/cluster/kmedoids.py:84-87 | No member of cluster j has a smaller dissimilarity sum to the cluster than the new medoid. Members with a lower index have a strictly larger sum. |
| MedoidStep.NewMedoids | mltk/cluster/kmedoids.py:82-87 | The re-chosen medoids of k non-empty clusters are k rows of the matrix. |
| MedoidStep.NewMedoidsSnoc | mltk/cluster/kmedoids.py:82-87 | Re-choosing one more cluster appends its medoid and leaves the earlier ones. |
| MedoidStep.CostSnoc | mltk/cluster/kmedoids.py:88 | Adding the next cluster's medoid adds that cluster's sum to J. |
| MedoidStep.CostNonNegative | mltk/cluster/kmedoids.py:80-88 | J is never negative when no dissimilarity is. |
| MedoidStep.RechooseTurn | mltk/cluster/kmedoids.py:82-88 | One turn of the `for j` loop overwrites `imedoids[j]` with the new medoid. J grows by that medoid's sum. |
| MedoidStep.CostMonotone | mltk/cluster/kmedoids.py:88 | J does not grow when no cluster's sum grows. |
| MedoidStep.NewMedoidsMinimiseCost | mltk/cluster/kmedoids.py:82-88 | Among all choices of one member per cluster, the re-chosen medoids give the least J. |
| MedoidStep.Iterate | mltk/cluster/kmedoids.py:77-88 | An iteration, completed or raising, leaves k medoids that name rows. |
| MedoidStep.RechooseCluster | mltk/cluster/kmedoids.py:83-88 | The body of `for j` on a non-empty cluster re-chooses medoid j. It returns the term it adds to J. |
| MedoidStep.Rechoose | mltk/cluster/kmedoids.py:82-88 | The `for j` loop stops at the first empty cluster, leaving earlier medoids re-chosen and later ones untouched. Without an empty cluster it leaves all k re-chosen and returns their J. |
| MedoidStep.IterateInPlace | mltk/cluster/kmedoids.py:77-88 | The in-place loop body computes `Iterate` of the old medoids and leaves `imedoids` as `Iterate` leaves them. |
| MedoidStep.SteppedMedoids | mltk/cluster/kmedoids.py:77-88 | After a completed iteration, the labels are the nearest-medoid assignment and the new medoids are distinct. Each new medoid is labelled with its own cluster and is that cluster's re-chosen medoid. J is their cost. |
| MedoidStep.MedoidsLabelThemselves | mltk/cluster/kmedoids.py:77-79 | Suppose the medoids are distinct and the matrix is zero exactly on its diagonal and never negative. Then every medoid is labelled with its own cluster, and the iteration completes. |
| MedoidStep.DuplicateMedoidsRaise | mltk/cluster/kmedoids.py:79-86 | With two equal medoids, the later one's cluster is empty and the iteration raises on an empty cluster at or before it. |
| MedoidStep.DistinctMedoidsKept | mltk/cluster/kmedoids.py:75-88 | On such a matrix, an iteration from distinct medoids completes and leaves distinct medoids. |
| MedoidStep.ShapeKept | mltk/cluster/kmedoids.py:82-87 | Every iteration keeps k medoids that name rows. |
| MedoidDescent.SumOverIsMemberTotal | mltk/cluster/kmedoids.py:84-85 | The sum of medoid j's dissimilarities to its members is cluster j's sum of per-point terms. |
| MedoidDescent.CostIsClusterTotal | mltk/cluster/kmedoids.py:80-88 | J of the first K medoids is the cluster-by-cluster total of each point's dissimilarity to its medoid. |
| MedoidDescent.CostByPoint | mltk/cluster/kmedoids.py:80-88 | J is the sum over all points of their dissimilarity to their own cluster's medoid. |
| MedoidDescent.AssignNoWorse | mltk/cluster/kmedoids.py:77-79 | For fixed medoids, the nearest-medoid labelling gives a J no larger than any other labelling. |
| MedoidDescent.StepNeverRaisesJ | mltk/cluster/kmedoids.py:94 | On a matrix that is zero exactly on its diagonal and never negative, the iteration after a completed one completes too, with a J no larger. So `Jprev - J` is never negative. |
| MltkKMedoids.KMedoidsRaw | mltk/cluster/kmedoids.py:65-98 | `_kmedoids` returns what `Loops.Loop` gives for the starting medoids, and leaves `imedoids` as that outcome's medoids. |
| MltkKMedoids.Restarts | mltk/cluster/kmedoids.py:46-56 | The restart loop yields `KeepBest` of the runs' outcomes. With k > N it raises as `random.sample` does, unless there are no tries. |
| MltkKMedoids.KMedoids | mltk/cluster/kmedoids.py:42-62 | Without seeds, the driver is the restart loop. Given seeds of the wrong length, or naming a non-row, raise without touching them. Otherwise one run updates the seeds in place. |
| MltkKMedoids.LoopNeverRaises | mltk/cluster/kmedoids.py:75-96 | On a separating, non-negative matrix, distinct starting medoids never make `_kmedoids` raise, and the medoids it leaves are distinct. |
| MltkKMedoids.LoopRaises | mltk/cluster/kmedoids.py:77-86 | With no medoid, the first iteration raises (`argmin` over nothing). With two equal medoids, it raises on an empty cluster. |
| MltkKMedoids.DoneFit | mltk/cluster/kmedoids.py:90-98 | A finished run took at least two iterations. Its labels assign points to the medoids the last iteration started from. Its medoids are distinct and each is its cluster's re-chosen medoid. J is their cost, never negative on a non-negative matrix. |
| MltkKMedoids.KeptRun | mltk/cluster/kmedoids.py:46-62 | The medoids and labels the restart loop returns come from the first run of least J. They are k distinct rows of the matrix, each labelled with its own cluster. Every label names one of them, and J is their cost. |
| MltkKMedoids.RunsNeverRaise | mltk/cluster/kmedoids.py:48-56 | On a separating, non-negative matrix, the random restarts never raise. |
| MltkKMedoids.FinalFall | mltk/cluster/kmedoids.py:94-96 | On a separating, non-negative matrix, the fall in J that stopped a run lies in `[0, threshold)`. So a threshold of 0 or below never lets a run finish. |
| PymlKMedoids.Run | pyml/clustering/kmedoids.py:37-67 | The capped loop returns `Loops.LoopCapped` of the starting medoids and leaves `imedoids` as that outcome's medoids. |
| PymlKMedoids.KMedoids | pyml/clustering/kmedoids.py:25-67 | Without seeds and with k > N it raises as `random.sample` does; otherwise it runs from the sample. List seeds are copied and checked. Array seeds are checked and, when valid, overwritten in place. Invalid seeds are left untouched. |
| PymlKMedoids.Given | pyml/clustering/kmedoids.py:30-34 | Given seeds of the wrong length raise the shape error. Seeds of the right length naming a non-row raise at that seed. |
| PymlKMedoids.RunIterations | pyml/clustering/kmedoids.py:57-65 | A run always ends. A finished run took between one and `maxiter` iterations, or exactly one when `maxiter` is below 1. |
| PymlKMedoids.RunNeverRaises | pyml/clustering/kmedoids.py:42-65 | On a separating, non-negative matrix, distinct seeds make the run finish with distinct medoids. |
| PymlKMedoids.RunFit | pyml/clustering/kmedoids.py:61-67 | Below `maxiter`, a finished run stopped on the threshold test. Its labels assign to the medoids the last iteration started from, its medoids are distinct re-chosen medoids, and J is their cost. |
| PymlKMedoids.FinalFall | pyml/clustering/kmedoids.py:61-65 | On a separating, non-negative matrix, a run that stopped before `maxiter` did so on a fall in J within `[0, threshold)`. |
| KMeansStep.SqDistNonNegative | mltk/cluster/kmeans.py:84 | A squared distance is never negative. |
| KMeansStep.Distances | mltk/cluster/kmeans.py:73 | A row of `distance_matrix` has one entry per centroid. |
| KMeansStep.Assign | mltk/cluster/kmeans.py:75 | Every one of the N points gets a label naming one of the k centroids. |
| KMeansStep.AssignNearest | mltk/cluster/kmeans.py:73-75 | Each point's centroid is at least as near as every other centroid, and strictly nearer than every centroid listed before it. |
| KMeansStep.Mean | mltk/cluster/kmeans.py:79 | The mean of a non-empty set of rows has D coordinates. |
| KMeansStep.Centroid | mltk/cluster/kmeans.py:78-79 | The new centroid of a non-empty cluster has D coordinates. |
| KMeansStep.NewCentroids | mltk/cluster/kmeans.py:77-79 | The re-centred k clusters give k rows of D coordinates. |
| KMeansStep.NewCentroidsSnoc | mltk/cluster/kmeans.py:77-79 | Re-centring one more cluster appends its mean and leaves the earlier ones. |
| KMeansStep.ObjectiveNonNegative | mltk/cluster/kmeans.py:84 | J is never negative. |
| KMeansStep.Iterate | mltk/cluster/kmeans.py:73-84 | An iteration, completed or raising, leaves k rows of D coordinates. |
| KMeansStep.Recenter | mltk/cluster/kmeans.py:77-79 | The `for j` loop stops at the first empty cluster with earlier centroids moved and later ones untouched. Otherwise it moves all k centroids to their clusters' means. |
| KMeansStep.RecenterTurn | mltk/cluster/kmeans.py:79 | One turn overwrites `centroids[j]` with cluster j's mean. |
| KMeansStep.IterateInPlace | mltk/cluster/kmeans.py:73-84 | The in-place loop body computes `Iterate` of the old centroids and leaves `centroids` as `Iterate` leaves them. |
| KMeansStep.SteppedCentroids | mltk/cluster/kmeans.py:73-84 | After a completed iteration, the labels are the nearest-centroid assignment and no cluster is empty. Every new centroid is its cluster's mean, and J is measured against the new centroids. |
| KMeansStep.ShapeKept | mltk/cluster/kmeans.py:77-79 | Every iteration keeps k rows of D coordinates. |
| KMeansDescent.DevAroundMean | mltk/cluster/kmeans.py:79 | In one coordinate, the squared deviations of a cluster about any x exceed those about the mean by the cluster size times the squared gap. |
| KMeansDescent.WithinAroundMean | mltk/cluster/kmeans.py:79 | A cluster's squared sum about any point v is its squared sum about the mean, plus the cluster size times the squared gap between mean and v, summed over the coordinates. |
| KMeansDescent.MeanMinimises | mltk/cluster/kmeans.py:79 | The mean gives a non-empty cluster its least squared sum. |
| KMeansDescent.ObjectiveIsPointTotal | mltk/cluster/kmeans.py:84 | J is the sum over points of the squared distance to the centroid their label names. |
| KMeansDescent.RecenterNoWorse | mltk/cluster/kmeans.py:77-84 | With every cluster non-empty and the labels fixed, moving the centroids to the means does not raise J. |
| KMeansDescent.ObjectivePointwise | mltk/cluster/kmeans.py:84 | J does not grow when no point's squared distance grows. |
| KMeansDescent.AssignNoWorse | mltk/cluster/kmeans.py:73-75 | For fixed centroids, the nearest-centroid labelling gives a J no larger than any other labelling. |
| KMeansDescent.StepNeverRaisesJ | mltk/cluster/kmeans.py:90-91 | Of two completed iterations in a row, the second has a J no larger than the first. So `Jprev - J` is never negative. |
| MltkKMeans.KMeansRaw | mltk/cluster/kmeans.py:61-94 | `_kmeans` returns what `Loops.Loop` gives for the starting centroids, and leaves `centroids` as that outcome's centroids. |
| MltkKMeans.RunFrom | mltk/cluster/kmeans.py:45-47 | One restart runs `_kmeans` on a fresh copy of the sampled rows. |
| MltkKMeans.Restarts | mltk/cluster/kmeans.py:44-51 | The restart loop yields `KeepBest` of the runs' outcomes. With k > N it raises as `random.sample` does, unless there are no tries. |
| MltkKMeans.KMeans | mltk/cluster/kmeans.py:38-58 | Without seeds, the driver is the restart loop. Given seeds that are not k-by-D raise without being touched. Otherwise one run updates them in place. |
| MltkKMeans.KeptRun | mltk/cluster/kmeans.py:42-58 | The centroids and labels the restart loop returns come from the first run of least J. They are k rows of D coordinates, and no cluster is empty. Each centroid is the mean of its cluster's points, and J is the points' squared distances to their centroids, added up. |
| MltkKMeans.LoopRaises | mltk/cluster/kmeans.py:73-75 | With no centroid, the first iteration raises (`argmin` over nothing). |
| MltkKMeans.DoneFit | mltk/cluster/kmeans.py:84-94 | A finished run took at least two iterations. Its labels assign points to the centroids the last iteration started from. Every returned centroid is its cluster's mean. J is the squared distance to the returned centroids, never negative. |
| MltkKMeans.LastStart | mltk/cluster/kmeans.py:90-91 | A finished run's last two iterations started from k-by-D centroids. The final J fell by less than the threshold. |
| MltkKMeans.FinalFall | mltk/cluster/kmeans.py:90-92 | The fall in J that stopped a run lies in `[0, threshold)`. So a threshold of 0 or below never lets a run finish. |

## Definitions

These functions define what the contracts above are stated in. Each
models the source expression named here; their properties are the
lemmas in the table.

- `Clustering.ArgMin`: numpy's `argmin`, mltk/cluster/kmedoids.py:79,86 and mltk/cluster/kmeans.py:75. Its property is `Clustering.ArgMinIsFirstMin`.
- `Clustering.Stops`: the test `Jprev-J < threshold`, with `Jprev = inf` on the first pass, mltk/cluster/kmedoids.py:70,94, mltk/cluster/kmeans.py:66,90 and pyml/clustering/kmedoids.py:37,61.
- `Clustering.IsSample`: what `random.sample(range(N), k)` returns, mltk/cluster/kmedoids.py:50, mltk/cluster/kmeans.py:45 and pyml/clustering/kmedoids.py:28.
- `Clustering.KeepBest`: the `if J < minJ` restart rule, mltk/cluster/kmedoids.py:48-56 and mltk/cluster/kmeans.py:44-51.
- `Clustering.Returned`: what a single pyml run hands back, `return imedoids, labels`, pyml/clustering/kmedoids.py:61-67.
- `MedoidStep.Column`: column i of `distmat[imedoids]`, mltk/cluster/kmedoids.py:77.
- `MedoidStep.WithinSum`: one entry of `distsum`, mltk/cluster/kmedoids.py:83-85.
- `MedoidStep.Cost`: J of k-medoids, accumulated at mltk/cluster/kmedoids.py:80,88.
- `MltkKMedoids.Runs`: the outcomes of the `for i in range(ntry)` runs, mltk/cluster/kmedoids.py:48-52.
- `KMeansStep.SqDist`: the squared Euclidean distance behind `distance_matrix`, mltk/cluster/kmeans.py:73.
- `KMeansStep.Objective`: J of k-means, mltk/cluster/kmeans.py:84.
- `MltkKMeans.Rows`: `data[seeds]`, mltk/cluster/kmeans.py:47.
- `MltkKMeans.Runs`: the outcomes of the `for i in range(ntry)` runs, mltk/cluster/kmeans.py:44-47.

## Left out

- Printing under `verbose` is left out. The model has no output.
- `random.sample` is not modelled. The drivers take its results as inputs: one sample per try, each k distinct row indices below N.
- Floating point is not modelled. Dissimilarities, coordinates, J and the threshold are exact reals. `Jprev = inf` is `None`, and no NaN or infinity arises.
- scipy's `distance_matrix` is modelled as the squared Euclidean distance. The square root it takes does not change which centroid is nearest, nor how ties fall. J in `_kmeans` is already a squared sum.
- KMeansStep.Iterate: an empty cluster raises `EmptyCluster(j)`, so the model raises where the source returns a degenerate fit. In the source, `data[idx_j].mean(axis=0)` gives cluster j a NaN centroid, with a warning. J stays finite, because `centroids[labels]` never picks the empty cluster's row. On the next pass, that centroid's column of `distance_matrix` is all NaN. `argmin` then returns the first NaN, so every point joins that one cluster. All other centroids become NaN, J becomes the total scatter about the one mean, and the run normally stops there. The result is a single-cluster fit with k-1 NaN centroids, which the restart loop's `J < minJ` may keep as the best run. The model has no floating point, so it leaves this out.
- MltkKMedoids.KMedoids: a given seed that names no row raises `SeedOutOfRange`. numpy raises `IndexError` for indices of at least N and wraps negative indices around to count from the end. The model does not wrap.
- PymlKMedoids.KMedoids: the same applies. In addition, seeds are one-dimensional integer sequences only, so the `(k,)` shape test is a length test.
- MltkKMeans.KMeans: seeds are modelled as rows of reals. An integer-typed numpy array would truncate the means written back into it. The model does not truncate.
- MltkKMedoids.KMedoidsRaw: the source loop has no bound, so the model bounds it with `fuel`. `OutOfFuel` and `FuelExhausted` report an exhausted bound. They exist only in the model.
- MltkKMeans.KMeansRaw: the same `fuel` bound applies.
- MltkKMeans.Restarts: with k > N it returns at once. The source raises from the first `random.sample`, which is the same observable outcome.
- The drivers' results also carry J, which the source computes but does not return. The model returns it so that the minimality of the kept run can be stated.
- MedoidStep.Iteration is the step given to the generic loops. Its `NoClusters` branch for medoids that name no row is never reached, because the drivers check the seeds and every iteration keeps medoids in range.
- KMeansStep.Iteration: the same holds for centroids that are not rows of D coordinates.
- `mltk/dataset/tdt2/__init__.py` and `mltk/image.py` are not part of this model. They load data and convert images and are not part of the clustering core.
