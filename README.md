# One filter step of the GMapping grid SLAM processor

This project models the per-step update of `GridSlamProcessor`, the
Rao-Blackwellized particle filter of GMapping. It covers three methods:

- `scanMatch` corrects every particle's pose with the scan matcher and weights the particle by the likelihood of the scan.
- `normalize` turns the per-step log-weights into a probability vector and computes the effective sample size (Neff).
- `resample` decides on Neff whether to resample. If it does, it copies the drawn particles onto fresh nodes of the ancestry tree and releases the leaves of the particles not drawn. If it does not, it extends every particle's trajectory by one node. In both cases it registers the scan into every new particle's map.

The files are:

- `types.dfy` (`SlamTypes`): poses, particles, ancestry nodes, and the scan matcher as a record of four functions over an abstract map type `M`.
- `weights.dfy` (`Weights`): the specification of normalisation (running maximum, unnormalised weights, their sum, the normalised vector, Neff) and its properties.
- `index_walk.dfy` (`IndexWalk`): the cursor walk that collects the particles not drawn, with its trailing bound.
- `ancestry.dfy` (`Ancestry`): the ancestry tree as an arena. Node `id` is `nodes[id]`, parent links are arena ids, and freeing a node adds its id to a `released` set.
- `scan_match.dfy` (`ScanMatching`): the effect of scan matching on one particle.
- `processor.dfy` (`GridSlam`): the class `GridSlamProcessor` holding `particles`, `weights`, `neff`, `indexes` and the arena. Its methods are proved against the specification functions above and keep the tree invariant `Valid`.

The collaborators the source calls but does not define are parameters of the model:

- The scan matcher is the `matcher` field.
- The platform's `exp` is a parameter of `Normalize`. It is only assumed positive with `exp(0) = 1`.
- The indexes drawn by the uniform resampler are the `drawn` parameter of `Resample`. They must be non-decreasing and below the particle count.
- The range reading stored in new nodes is a value of the type parameter `R`.

## Model

| member | source | states |
|---|---|---|
| ScanMatching.MatchedPose | include/gmapping/gridfastslam/gridslamprocessor.hxx:16-25 | the kept pose is the corrected pose exactly when the match score exceeds the minimum score, and otherwise the pose the particle already had |
| ScanMatching.ScanMatched | include/gmapping/gridfastslam/gridslamprocessor.hxx:16-35 | a matched particle takes the kept pose; `weight` and `weightSum` each grow by the likelihood of that pose on the particle's map; the map gets the active area of that pose; leaf and previous index are untouched |
| ScanMatching.RejectedMatchKeepsPose | include/gmapping/gridfastslam/gridslamprocessor.hxx:18-30 | a rejected match leaves the pose unchanged and keeps `weightSum - weight` |
| GridSlam.GridSlamProcessor.ScanMatch | include/gmapping/gridfastslam/gridslamprocessor.hxx:13-36 | the particle count and order are unchanged, every particle becomes its scan-matched self, and the ancestry tree stays valid |
| Weights.Gain | include/gmapping/gridfastslam/gridslamprocessor.hxx:42 | definition: the gain `1 / (obsSigmaGain N)` |
| Weights.MaxOf | include/gmapping/gridfastslam/gridslamprocessor.hxx:43-46 | definition: the largest log-weight |
| Weights.Unnormalized | include/gmapping/gridfastslam/gridslamprocessor.hxx:51-54 | definition: `exp(gain (w - lmax))` for one log-weight |
| Weights.Exps | include/gmapping/gridfastslam/gridslamprocessor.hxx:51-54 | definition: the unnormalised weight of each particle, in order |
| Weights.Normalized | include/gmapping/gridfastslam/gridslamprocessor.hxx:48-61 | definition: the unnormalised weights divided by their sum |
| Weights.Neff | include/gmapping/gridfastslam/gridslamprocessor.hxx:62 | definition: the reciprocal of the sum of squared normalised weights |
| GridSlam.ResampleDue | include/gmapping/gridfastslam/gridslamprocessor.hxx:75 | definition: `neff < resampleThreshold * N` |
| GridSlam.Leaves | include/gmapping/gridfastslam/gridslamprocessor.hxx:71-73 | definition: the leaf of each particle, in order (`oldGeneration`) |
| Ancestry.LeavesAt | include/gmapping/gridfastslam/gridslamprocessor.hxx:119-123 | definition: the leaves of the particles in the deleted list |
| Weights.MaxOfBounds | include/gmapping/gridfastslam/gridslamprocessor.hxx:43-46 | the running maximum bounds every log-weight from above and is attained by one of them |
| Weights.MaxOfConstant | include/gmapping/gridfastslam/gridslamprocessor.hxx:43-46 | the maximum of equal log-weights is their common value |
| Weights.ExpsBounds | include/gmapping/gridfastslam/gridslamprocessor.hxx:48-54 | one unnormalised weight per particle, each positive and at most their sum `wcum`, and `wcum >= 1` because the maximal log-weight contributes `exp(0) = 1` |
| Weights.SumDominatesPositiveTerms | include/gmapping/gridfastslam/gridslamprocessor.hxx:49-54 | a sum of positive terms is non-negative and at least each term |
| Weights.SumScaled | include/gmapping/gridfastslam/gridslamprocessor.hxx:57-58 | dividing every entry by `c` divides the sum by `c` |
| Weights.NormalizedIsDistribution | include/gmapping/gridfastslam/gridslamprocessor.hxx:48-61 | the normalised weights have one entry per particle, each in (0, 1], and they sum to 1 |
| Weights.SumSquaresNonNegative | include/gmapping/gridfastslam/gridslamprocessor.hxx:56-61 | the accumulated sum of squares is never negative |
| Weights.SumSquaresAtMostSum | include/gmapping/gridfastslam/gridslamprocessor.hxx:56-61 | for entries in [0, 1] the sum of squares is at most the sum |
| Weights.SquaredSumAtMostScaledSumSquares | include/gmapping/gridfastslam/gridslamprocessor.hxx:56-62 | Cauchy-Schwarz: the squared sum is at most N times the sum of squares |
| Weights.SumsOfConstant | include/gmapping/gridfastslam/gridslamprocessor.hxx:56-61 | N equal entries `c` sum to `N c`, with squares summing to `N c^2` |
| Weights.NeffBounds | include/gmapping/gridfastslam/gridslamprocessor.hxx:56-62 | for the normalised weights the sum of squares is positive and `1 <= Neff <= N` |
| Weights.NeffOfEqualWeights | include/gmapping/gridfastslam/gridslamprocessor.hxx:42-62 | equal log-weights normalise to `1/N` each and give `Neff = N` |
| GridSlam.GridSlamProcessor.Normalize | include/gmapping/gridfastslam/gridslamprocessor.hxx:40-64 | `weights` becomes the normalised vector of the particles' log-weights with gain `1 / (obsSigmaGain N)`, and `neff` is the reciprocal of its positive sum of squares |
| GridSlam.MaxOfLonger | include/gmapping/gridfastslam/gridslamprocessor.hxx:44-46 | one more log-weight updates the running maximum as `w > lmax ? w : lmax` |
| GridSlam.ExpsOfLonger | include/gmapping/gridfastslam/gridslamprocessor.hxx:51-54 | one more log-weight appends its unnormalised weight and adds it to `wcum` |
| GridSlam.SumSquaresOfLonger | include/gmapping/gridfastslam/gridslamprocessor.hxx:57-61 | one more normalised weight `w` adds `w*w` to the accumulated sum |
| GridSlam.NormalizedIsScaledExps | include/gmapping/gridfastslam/gridslamprocessor.hxx:57-58 | dividing each unnormalised weight by `wcum` yields the normalised vector |
| GridSlam.GridSlamProcessor.Resample | include/gmapping/gridfastslam/gridslamprocessor.hxx:66-167 | returns true exactly when `neff < resampleThreshold * N`; then the particles, tree and released set are the resampled ones and `indexes` is the drawn list, otherwise the particles are extended in place and nothing is released; the tree stays valid either way |
| GridSlam.GridSlamProcessor.ResampleParticles | include/gmapping/gridfastslam/gridslamprocessor.hxx:80-138 | records the drawn indexes, appends one node per drawn index, releases exactly the leaves of the particles not drawn, and replaces the particle set by the resampled copies |
| GridSlam.GridSlamProcessor.BuildTree | include/gmapping/gridfastslam/gridslamprocessor.hxx:96-113 | the k-th new node hangs from the leaf of particle `indexes[k]`, and the k-th copy of that particle sits on that node and records `indexes[k]` as its previous index |
| GridSlam.GridSlamProcessor.ReleaseUnselected | include/gmapping/gridfastslam/gridslamprocessor.hxx:93-123 | the released set grows by exactly the leaves of the particles whose index was not drawn |
| GridSlam.GridSlamProcessor.ExtendParticles | include/gmapping/gridfastslam/gridslamprocessor.hxx:140-160 | every particle moves onto one fresh node hung from its own leaf, keeps pose and weights, has the scan registered, and takes its position as previous index |
| GridSlam.NewGeneration | include/gmapping/gridfastslam/gridslamprocessor.hxx:103-108 | one node per drawn index, with the pose of the drawn particle, weight 0, that particle's leaf as parent, and this step's reading |
| GridSlam.Resampled | include/gmapping/gridfastslam/gridslamprocessor.hxx:103-113 | one particle per drawn index, on the fresh leaves in order; each copies the pose, `weightSum` and map (with the scan registered) of the particle its previous index names, with per-step weight 0 |
| GridSlam.Extended | include/gmapping/gridfastslam/gridslamprocessor.hxx:143-157 | same count; each particle keeps pose and both weights, gets the scan registered, sits on fresh leaf `base + i` and has previous index `i` |
| GridSlam.CopiesAreResampled | include/gmapping/gridfastslam/gridslamprocessor.hxx:110-112 | copying the drawn particles and then resetting their weights and registering the scan gives the resampled set |
| GridSlam.NewGenerationGrows | include/gmapping/gridfastslam/gridslamprocessor.hxx:105-106 | appending the new generation keeps the old arena as a prefix and hangs the k-th new node from the leaf of particle `indexes[k]` |
| GridSlam.IdentityDropsNothing | include/gmapping/gridfastslam/gridslamprocessor.hxx:140-158 | when every particle continues in place, no leaf is released |
| GridSlam.ExtendedIsIdentityResampling | include/gmapping/gridfastslam/gridslamprocessor.hxx:140-158 | not resampling equals resampling with each particle drawn once in place, except that the per-step weights are kept instead of being reset |
| GridSlam.NewGenerationLineage | include/gmapping/gridfastslam/gridslamprocessor.hxx:103-108 | the trajectory of the k-th new particle is its fresh node followed by the unchanged trajectory of the particle it was drawn from, and no node of it is released |
| GridSlam.LowThresholdNeverResamples | include/gmapping/gridfastslam/gridslamprocessor.hxx:75 | with normalised weights, a threshold of at most `1/N` never triggers resampling |
| GridSlam.HighThresholdAlwaysResamples | include/gmapping/gridfastslam/gridslamprocessor.hxx:75 | a threshold above 1 triggers resampling whatever the weights |
| GridSlam.EqualWeightsDoNotResample | include/gmapping/gridfastslam/gridslamprocessor.hxx:75 | equal log-weights never trigger resampling when the threshold is at most 1 |
| IndexWalk.CollectDeleted | include/gmapping/gridfastslam/gridslamprocessor.hxx:93-117 | the walk over sorted indexes collects exactly the indexes that do not occur, in increasing order, up to where its trailing loop stops |
| IndexWalk.UnselectedMembers | include/gmapping/gridfastslam/gridslamprocessor.hxx:93-117 | the collected list holds an index exactly when it is below the bound and not among the indexes |
| IndexWalk.UnselectedIncreasing | include/gmapping/gridfastslam/gridslamprocessor.hxx:93-117 | the collected list is strictly increasing, so no particle is collected twice |
| IndexWalk.GapIsUnselected | include/gmapping/gridfastslam/gridslamprocessor.hxx:97-100 | an index skipped by the cursor before a drawn index does not occur among the indexes |
| IndexWalk.PastTopIsUnselected | include/gmapping/gridfastslam/gridslamprocessor.hxx:114-117 | an index collected by the trailing loop does not occur among the indexes |
| IndexWalk.WalkToParticleCountIsExact | include/gmapping/gridfastslam/gridslamprocessor.hxx:93-123 | with the trailing bound at the particle count, exactly the particles not drawn are collected, each once, in increasing order |
| IndexWalk.FullIndexListAgrees | include/gmapping/gridfastslam/gridslamprocessor.hxx:114 | with as many indexes as particles, the bound as written and the particle count agree |
| IndexWalk.ShortIndexListLeaks | include/gmapping/gridfastslam/gridslamprocessor.hxx:114-117 | as written, with fewer indexes than particles, the last particle may be left out of the list even though it was not drawn |
| IndexWalk.LongIndexListOverruns | include/gmapping/gridfastslam/gridslamprocessor.hxx:114-121 | as written, with more indexes than particles, an index past the last particle is collected |
| IndexWalk.WalkAsWrittenExactIff | include/gmapping/gridfastslam/gridslamprocessor.hxx:93-117 | for sorted indexes below the particle count, the walk as written collects exactly the particles not drawn if and only if it stops at the particle count |
| IndexWalk.ShortIndexListExample | include/gmapping/gridfastslam/gridslamprocessor.hxx:114-117 | for indexes `[0, 0]` and three particles, the walk as written collects `[1]` while the unselected particles are `[1, 2]`; for `[0, 2]` it collects exactly `[1]` |
| Ancestry.LeavesAtMembers | include/gmapping/gridfastslam/gridslamprocessor.hxx:119-123 | the release loop frees exactly the leaves of the listed particles |
| Ancestry.ReleasedAreDropped | include/gmapping/gridfastslam/gridslamprocessor.hxx:119-123 | freeing the leaves of exactly the particles not drawn frees exactly the dropped leaves |
| Ancestry.DroppedExactlyUnselected | include/gmapping/gridfastslam/gridslamprocessor.hxx:119-123 | since no two particles share a leaf, a particle's leaf is freed exactly when its index was not drawn |
| Ancestry.GrowthKeepsTreeValid | include/gmapping/gridfastslam/gridslamprocessor.hxx:103-123 | no new node hangs from a freed node, and after growth and release the tree is valid for the fresh leaves: acyclic, no orphans, distinct live childless leaves |
| Ancestry.LineageOfPrefix | include/gmapping/gridfastslam/gridslamprocessor.hxx:106 | appending nodes does not change the trajectory of an existing node |
| Ancestry.GrownLineage | include/gmapping/gridfastslam/gridslamprocessor.hxx:103-106 | the trajectory of a fresh leaf is its node on top of the trajectory of the leaf it hangs from |
| Ancestry.LineageLive | include/gmapping/gridfastslam/gridslamprocessor.hxx:119-123 | when nothing hangs from a freed node, the whole trajectory of a live node is live |
| Ancestry.LiveFreshLineage | include/gmapping/gridfastslam/gridslamprocessor.hxx:103-123 | the trajectory of a fresh leaf extends that of its source leaf and survives the release of the dropped leaves |
| Ancestry.FreshLeafLive | include/gmapping/gridfastslam/gridslamprocessor.hxx:103-123 | no node on the trajectory of a fresh leaf is freed by the release of the dropped leaves |

## Left out

- Logging: the informational and debug messages, the `RESAMPLE` trace written to the output stream (lines 82-88), and the average match score `sumScore` that only feeds a log line. They are I/O with no effect on the state.
- The `onResampleUpdate` hook (line 90) is a virtual callback whose body is not part of this model.
- The scan matcher: `optimize`, `likelihoodAndScore`, `computeActiveArea` and `registerScan` are abstract total functions of (map, pose, reading). `invalidateActiveArea` has no counterpart. The matcher state it resets does decide whether the active area is recomputed, but the source calls it immediately before every `computeActiveArea` and `registerScan` (lines 34-35, 133-134, 154-155). Each of those calls therefore always starts from the same reset state, so it can be modelled as a pure function of its arguments.
- The uniform resampler (line 80) and its `adaptSize` argument: the drawn indexes are an input, assumed non-decreasing and below the particle count.
- The MACOSX `isnan` workaround (lines 2-5) is a platform macro.
- GridSlam.GridSlamProcessor.Normalize: works over the mathematical reals with an abstract positive `exp`, so IEEE rounding is not modelled.
- GridSlam.GridSlamProcessor.Normalize: requires at least one particle and a non-zero `obsSigmaGain`. For an empty set or a zero gain the source divides by zero, and its floating-point result (infinity or NaN) is not modelled.
- GridSlam.GridSlamProcessor.Normalize: seeds the running maximum with the first log-weight instead of the lowest double. This is the same maximum for any finite weights.
- Memory: `new`/`delete` of ancestry nodes become appending to the arena and adding ids to `released`. The copy-on-write sharing of maps between copied particles is not modelled, and maps are values.
- GridSlam.GridSlamProcessor.Resample: its `released` postcondition differs from the source in two ways. First, the index walk's trailing loop is bounded by the particle count, not by the number of indexes as written at line 114 (see Findings). Second, it adds only the dropped leaves, whereas the node destructor also frees ancestors left without children; that destructor lives in gridslamprocessor_tree.cpp, which is not part of this model.
- GridSlam.GridSlamProcessor.ReleaseUnselected: models the release of a leaf only. The node destructor, which also frees ancestors left without children, lives in gridslamprocessor_tree.cpp, which is not part of this model. Its walk's trailing loop is bounded by the particle count rather than by the number of indexes as written at line 114 (see Findings).
- Resetting the node reference of a released particle (line 122) is not modelled, because the old particle set is discarded right after.
- GridSlam.GridSlamProcessor.ResampleParticles: the trailing loop of the index walk is bounded by the particle count rather than by the number of indexes as written at line 114 (see Findings). It also releases only the dropped leaves, not the ancestors the node destructor frees once they are left without children.
- The source has one `resample` method, split here into `ResampleParticles`, `BuildTree`, `ReleaseUnselected` and `ExtendParticles`. In the source one loop (lines 96-113) both advances the cursor `j` and creates the nodes and copies. The model does these in two passes: `BuildTree` creates the nodes and copies, then `CollectDeleted`, called from `ReleaseUnselected`, advances the cursor. The split gives the same result because neither pass reads what the other writes. The cursor pass reads only the index list and writes only `j` and the list of deleted indexes. The building pass reads the particles, the old leaves and the index list, and writes only the arena and the copies.

## Findings

| source | as written | input that shows it | evidently intended | confidence | as-written member | corrected member |
|---|---|---|---|---|---|---|
| include/gmapping/gridfastslam/gridslamprocessor.hxx:114 | the trailing loop of the index walk runs while `j < m_indexes.size()` | three particles with drawn indexes `[0, 0]`: particle 2 is not drawn but is never collected, so its leaf is never freed; with more indexes than particles, an index past the end is collected and line 121 reads outside the particle vector | the loop runs while `j < m_particles.size()`, so exactly the particles not drawn are collected | not executed; medium, as it shows only when an adaptive size makes the index count differ from the particle count | IndexWalk.ShortIndexListLeaks | IndexWalk.WalkToParticleCountIsExact |

The intended behaviour rests on the code's own text. The comment at line 94 declares `deletedParticles` as the list of particles "which have been resampled away", and the release loop at lines 119-123 frees the leaf of each particle in that list. The walk as written stops at the larger of the number of indexes and one past the last drawn index. It meets that intent exactly when this stopping point equals the particle count (`IndexWalk.WalkAsWrittenExactIff`). Equal counts always meet it. A shorter index list meets it only when the last particle is drawn: for three particles, `[0, 2]` yields exactly `[1]`, but `[0, 0]` leaves particle 2 out. A longer index list never meets it. The model uses the intended bound, and the members named above keep the as-written behaviour.
