# Mean squared displacement of tracked probes

This project models the motion-analysis core of `mr/motion.py`. The input is a table of probe
observations (`probe`, `frame`, `x`, `y`). From it the code derives:

- `msd`: the mean displacement and the mean squared displacement of one trajectory at each lag;
- `imsd`: the same statistic for each probe, one column per probe;
- `emsd`: the ensemble average over probes, weighted by the estimated number of independent
  measurements `N`;
- `compute_drift`: the ensemble drift, without smoothing. It takes the mean displacement between
  consecutive frames and sums it cumulatively.

Floating-point values are modelled as `real`. A pandas `NaN` becomes `None` of `Stats.Option`.
Means skip missing values, as pandas does.

Modules:

- `Stats`: sums, means and scaling.
- `Trajectory`: one probe's observations. It holds the reindexing onto consecutive frames and the
  lagged displacements. It also holds an independent reference, `ObservedPairs`: the displacements
  between observed frames exactly `lag` apart.
- `MsdEngine`: `msd`.
- `Groups`: splits the table by probe.
- `PerProbe`: runs `msd` on each probe.
- `IndividualMsd`: `imsd`, as methods that gather the per-probe results and pivot them into
  columns.
- `EnsembleMsd`: `emsd`, as methods that fold the per-probe results lag by lag.
- `Drift`: `compute_drift`.

The methods are proved against the functions that specify them. The properties of the
computation are proved as lemmas about those functions.

## Model

| member | source | states |
|---|---|---|
| Stats.Mean | mr/motion.py:66-68 | the mean of the present values is missing exactly when there are none; otherwise it times their count is their sum |
| Stats.SkipSum | mr/motion.py:69 | the row sum of the two second moments is missing only when both are missing, and is their sum when both are present |
| Stats.MeanOfConstant | mr/motion.py:66-68 | the mean of a non-empty sample of equal values is that value |
| Trajectory.Lookup | mr/motion.py:58-61 | the position at a frame is present exactly when some observation has that frame, and it is that observation's position |
| Trajectory.LookupRow | mr/motion.py:58-61 | on increasing frames, looking up an observed frame gives that row's position |
| Trajectory.Dense | mr/motion.py:58-61 | the reindexed series has one cell per frame from the first to the last observed frame; `Trajectory.ReindexMarksGaps` states what each cell holds |
| Trajectory.ReindexMarksGaps | mr/motion.py:60-61 | after reindexing onto every frame from the first to the last, a cell is missing exactly when no observation has that frame; an observed frame holds its own position; the reindexed length is at least the number of rows |
| Trajectory.Displacements | mr/motion.py:64-65 | shifting a series by a lag and subtracting gives no displacements, or at most one per position past the lag; `Trajectory.GapHandling` states which, on the reindexed series |
| Trajectory.LagDisplacements | mr/motion.py:64-65 | the displacements at a lag number at most the span minus the lag; `Trajectory.GapHandling` proves them equal to the observed pairs that lag apart |
| Trajectory.GapHandling | mr/motion.py:58-65 | the displacements at a lag over the reindexed frames are exactly the displacements between observed frames that lag apart, in frame order |
| Trajectory.PairsExist | mr/motion.py:64-65 | there is a displacement at a lag exactly when two observed frames are that lag apart |
| Trajectory.GapFreePairCount | mr/motion.py:64-65 | with no gaps, the first m rows give max(0, m - lag) displacements at the lag |
| Trajectory.LinearPairs | mr/motion.py:64-65 | for a probe moving at constant velocity v, every displacement at lag L is v L |
| MsdEngine.Msd | mr/motion.py:62-74 | one row per lag from 1 to min(max_lagtime, rows) - 1, because the last computed lag is dropped; no rows for a single observation; row k is lag k + 1 at lag time (k + 1) / fps |
| MsdEngine.LagRow | mr/motion.py:64-73 | a lag's mean displacement is present exactly when there is a displacement at that lag, msd is present together with it, and N is never negative; `MsdEngine.RowFromObservedPairs` states each column's value |
| MsdEngine.RowFromObservedPairs | mr/motion.py:58-73 | each column of a row is the scaled mean over the observed pairs at that lag: mpp times the mean displacement, mpp squared times the mean squares, and msd is mpp squared times the sum of the two mean squares |
| MsdEngine.MissingWithoutPairs | mr/motion.py:64-69 | a row's statistics are missing exactly when no two observed frames are that lag apart; all five are present or missing together; msd = x2 + y2 |
| MsdEngine.PresentWithPairs | mr/motion.py:64-69 | the same, stated against the reference list of observed pairs |
| MsdEngine.ScaledUnits | mr/motion.py:66-69 | scaling microns per pixel by s scales the means by s and the second moments and msd by s squared; N, the lag and the lag time are unchanged |
| MsdEngine.IndependentCount | mr/motion.py:70-72 | with detail, N = 2 * (number of observed pairs at lag L) / (L + 1); without detail there is no N |
| MsdEngine.DocumentedCount | mr/motion.py:70-72 | the computed N times (lag + 1) / lag is the documented 2N/t: the two differ by one factor per lag |
| MsdEngine.IndependentCountGapFree | mr/motion.py:70-72 | on a gap-free track of n rows, N at lag L = 2 (n - L) / (L + 1) |
| MsdEngine.CountMarksMissing | mr/motion.py:66-72 | N is present and non-negative, and it is zero exactly when the row's statistics are missing |
| MsdEngine.ConstantVelocity | mr/motion.py:64-69 | at constant velocity v, row L has mean displacement mpp v L and second moments and msd that are its squares; without gaps every row is present |
| MsdEngine.Stationary | mr/motion.py:64-69 | a probe that never moves has zero mean displacement, zero second moments and zero msd at every present lag |
| MsdEngine.GapExcludedExample | mr/motion.py:58-66 | for frames 0, 1, 3, 4, the lag-1 mean averages only the steps 0 to 1 and 3 to 4, never a step across the gap |
| MsdEngine.NoUnitStepExample | mr/motion.py:64-72 | for frames 0, 2, 4, the lag-1 row has N = 0 and missing `<x^2>`, `<y^2>` and msd |
| Groups.Group | mr/motion.py:103 | a probe's group is no longer than the table; `Groups.GroupMembers` and `Groups.GroupIsTrack` state which rows it holds |
| Groups.GroupMembers | mr/motion.py:103 | a probe's group holds exactly that probe's rows |
| Groups.ProbeIdsMembers | mr/motion.py:103-105 | the probe ids are exactly the probes that occur in the table |
| Groups.ProbeIdsDistinct | mr/motion.py:103-105 | each probe id occurs once |
| Groups.GroupIsTrack | mr/motion.py:103-104 | the group of an occurring probe is a non-empty track with increasing frames |
| PerProbe.ProbeMsd | mr/motion.py:103-104 | a probe's result has fewer rows than max_lagtime and fewer than the probe's observations, because the last lag is dropped |
| PerProbe.ProbeResults | mr/motion.py:103-105 | one msd result per probe id, in id order, each computed on that probe's own rows |
| PerProbe.Width | mr/motion.py:106-108 | the width of the combined table is the length of the longest per-probe result |
| IndividualMsd.Imsd | mr/motion.py:99-111 | rows are lags 1 to the longest per-probe result, indexed by (k + 1) / fps; there is a column for a probe exactly when its own result has a row; each cell is that probe's statistic at the lag, missing past its last lag |
| IndividualMsd.Gather | mr/motion.py:103-105 | the gathered results are the per-probe msd results and their longest length |
| IndividualMsd.Unstack | mr/motion.py:106-108 | every column belongs to a probe; a probe has a column exactly when its result is non-empty; the column is its statistic padded with missing cells |
| EnsembleMsd.Emsd | mr/motion.py:153-165 | with detail, the result is the folded table; otherwise one (lag time, msd) point per lag of the longest per-probe result |
| EnsembleMsd.FoldAll | mr/motion.py:158-160 | the folded table has one row per lag, each the ensemble row at that lag |
| EnsembleMsd.FoldLag | mr/motion.py:159-160 | one lag's row is the ensemble cell of every column at that lag |
| EnsembleMsd.EnsembleCell | mr/motion.py:159-160 | an ensemble cell is present only when some probe has the statistic and the counts do not sum to zero; `EnsembleMsd.EnsembleIsWeightedAverage` and `EnsembleMsd.SkewFactor` state its value |
| EnsembleMsd.Ratio | mr/motion.py:159-160 | the ratio of two means is present exactly when both means exist and the denominator is non-zero |
| EnsembleMsd.WeightedAverage | mr/motion.py:159-160 | the N-weighted average over the probes where the statistic is present exists when their weights do not sum to zero, and then times that weight sum it equals the weighted sum |
| EnsembleMsd.EnsembleIsWeightedAverage | mr/motion.py:159-160 | when every probe with a row at the lag has the statistic and N, the ensemble cell is the N-weighted average |
| EnsembleMsd.WeightedAverageBounds | mr/motion.py:159-160 | with non-negative weights, the weighted average lies between any bounds of the probes' values |
| EnsembleMsd.WeightedAverageOfConstant | mr/motion.py:159-160 | when every probe has the same value, the weighted average is that value |
| EnsembleMsd.EnsembleWithinRange | mr/motion.py:159-160 | when every probe is present, the ensemble value lies between the probes' bounds |
| EnsembleMsd.DetailRows | mr/motion.py:70-73 | every per-probe row has an N and the lag time (k + 1) / fps |
| EnsembleMsd.EnsembleLagTime | mr/motion.py:159-164 | the folded lag time is (k + 1) / fps, unless the N at that lag sum to zero |
| EnsembleMsd.SingleProbe | mr/motion.py:159-160 | for one probe with non-zero N, the ensemble cell is that probe's own value |
| EnsembleMsd.SingleProbeTable | mr/motion.py:153-160 | for a table of one probe, the ensemble cell is that probe's msd value at the lag |
| EnsembleMsd.AbsentProbe | mr/motion.py:158-160 | a probe whose result stops before the lag does not change that lag's ensemble cell |
| EnsembleMsd.SkewFactor | mr/motion.py:159-160 | when missing statistics have N = 0, the ensemble cell is the weighted average times (probes with a row) / (probes with the statistic) |
| EnsembleMsd.EmsdSkew | mr/motion.py:153-160 | the same, for the per-probe results of any table |
| EnsembleMsd.ZeroCountProbeInflates | mr/motion.py:159-160 | for any column a probe lacks at a lag where its N is 0, a two-probe ensemble gives 2 v where the weighted average is v |
| EnsembleMsd.CommonFactorInvariance | mr/motion.py:159-160 | multiplying every probe's N at a lag by the same positive factor leaves the position columns, msd and lagt of that lag unchanged, and multiplies emsd's own N by the factor |
| EnsembleMsd.DocumentedWeights | mr/motion.py:70-72 | with N as documented (2N/t) instead of as computed, every emsd column but N is the same |
| Drift.GroupSteps | mr/motion.py:191-194 | a trajectory of n > 0 rows gives fewer than n steps, and an empty one gives none; `Drift.GroupStepsMembers` states which |
| Drift.GroupStepsMembers | mr/motion.py:191-194 | a probe's steps are exactly the differences between two of its rows whose frames are one apart, labelled with the later frame, and their frames strictly increase, so each such pair gives one step |
| Drift.Steps | mr/motion.py:191-192 | the steps of every probe, concatenated; `Drift.StepsMembers` and `Drift.StepCountAtFrame` state which steps and how many |
| Drift.StepsMembers | mr/motion.py:191-194 | the steps of the table are exactly the differences between rows of the same probe at consecutive frames |
| Drift.Insert | mr/motion.py:198 | inserting a frame into a strictly sorted list keeps it strictly sorted and adds exactly that frame |
| Drift.EndFrames | mr/motion.py:198 | the group keys are strictly increasing and are exactly the frames that end a step |
| Drift.AtFrame | mr/motion.py:198 | a frame's group holds exactly the steps ending at that frame |
| Drift.AtFrameMultiset | mr/motion.py:198 | a frame's group holds each step ending there as many times as the steps do, and nothing else |
| Drift.GroupStepCount | mr/motion.py:191-198 | a probe contributes one step to a frame's group if it is observed at that frame and the one before, and none otherwise |
| Drift.StepCountAtFrame | mr/motion.py:191-198 | the number of steps averaged at a frame is the number of probes observed at that frame and at the frame before it |
| Drift.CumSum | mr/motion.py:201 | one drift row per group key, carrying that frame |
| Drift.ComputeDrift | mr/motion.py:167-202 | for a non-empty table, the drift's frames are strictly increasing |
| Drift.CumSumIsTotal | mr/motion.py:198-201 | the cumulative sum at a frame is the total of the mean steps over all key frames up to that frame |
| Drift.DriftIsCumulative | mr/motion.py:191-201 | each drift coordinate is the sum, over frames up to its own, of the mean step ending at that frame |
| Drift.DriftIndex | mr/motion.py:191-198 | the drift has a row for a frame exactly when some probe is observed at that frame and at the frame before it |
| Drift.MeanOfUniform | mr/motion.py:198 | if every step has the same component c, every frame's mean step is c |
| Drift.CumSumOfUniform | mr/motion.py:198-201 | if every step has the same component c, the k-th drift row is c added k + 1 times |
| Drift.UniformDrift | mr/motion.py:167-202 | if every probe moves by (dx, dy) per frame, the k-th drift row is (dx, dy) added k + 1 times |
| Drift.TimesIsProduct | mr/motion.py:201 | adding c to itself m times gives m c |

## Left out

- `imsd_plot`, `subtract_drift` and the rest of `mr/motion.py` (the van Hove, correlation, entropy
  and proximity functions) are not part of this model.
- `compute_drift` with `smoothing > 0`: the rolling mean is not modelled. Only `smoothing = 0` is.
- IEEE floating point is not modelled. Values are exact reals, and rounding, infinities and the
  order of summation have no effect.
- `fps = 0` would give infinite lag times under IEEE. Every member that takes `fps` requires `fps != 0`.
- The frames must be integers that increase strictly within each probe. This is a precondition;
  the source assumes it without checking it.
- `msd` requires `max_lagtime >= 1`. With `max_lagtime <= 0`, `lagtimes` is empty and `pd.concat([])`
  at `mr/motion.py:64` raises.
- `Drift.ComputeDrift` requires a non-empty table. On an empty table `groupby` yields no groups and
  `pd.concat([])` at `mr/motion.py:191` raises.
- `MsdEngine.Msd`: when both second moments are missing, pandas' row `sum(1)` may give 0 or NaN
  depending on its version. The model gives a missing msd.
- Groups are visited in order of first appearance in the table, whereas `groupby` sorts the ids.
  Over exact reals, the sums and means over probes do not depend on this order.
- `EnsembleMsd.Ratio`: a 0/0 under pandas is NaN and a non-zero value over 0 is infinite. The model
  gives a missing value for both.
- `EnsembleMsd.Emsd` returns the (lag time, msd) pairs of the Series form, not a Series keyed by
  lag time. Present lag times are distinct, because the lag time at lag k is k / fps
  (`EnsembleMsd.EnsembleLagTime`). A missing lag time, where every N at that lag is 0, can repeat:
  with `max_lagtime` at least 3, a single probe observed at frames 0, 3, 6 and 9 has a missing
  lag time at lags 1 and 2. The pair list keeps every such pair.
- The statistic that `imsd` selects must be one of the msd columns. `N` is not produced without
  detail, so `Imsd` requires `stat != Count`.
- `Drift.MeanStep` has no contract of its own. It is `Stats.Mean` of a non-empty group, and its
  properties are stated through `Drift.MeanOfUniform` and `Drift.CumSumIsTotal`.
- `Drift.UniformDrift` states the drift as repeated addition (`Times`), not as `(k + 1) * dx`.
  `Drift.TimesIsProduct` proves the two equal.
- `MsdEngine.Msd` computes `N` as `2 * count / (lag + 1)`, which is what `mr/motion.py:72` does.
  The comment on line 70 says `2N/t`. The division aligns the counts with `Series(lagtimes)` by
  index label. That series is indexed from 0, so the count at label lag meets the value lag + 1. At a fixed lag the divisor is
  the same for every probe. In `emsd` it cancels from the position columns, msd and lagt, but
  emsd's own `N` column, a weighted mean of N, is scaled by lag / (lag + 1).
  `EnsembleMsd.CommonFactorInvariance`, `EnsembleMsd.DocumentedWeights` and
  `MsdEngine.DocumentedCount` state this.
- The default arguments (`max_lagtime=100`, `detail=False`, `statistic='msd'`, `smoothing=0`) are not
  modelled. Every argument is explicit, and the defaults are ordinary values of it.

## Findings

| source | as written | input that shows it | evidently intended | confidence | as-written member | corrected member |
|---|---|---|---|---|---|---|
| mr/motion.py:159-160 | The numerator is `mean(v N)` over the probes whose statistic is present, because pandas skips NaN. The denominator is `mean(N)` over every probe with a row at the lag, including probes with no pairs there (`N = 0`). The two means use different counts, so the result is the weighted average times (probes with a row) / (probes with the statistic). | Take two probes, one observed at frames 0, 1, 2 and one at frames 0, 2, 4. At lag 1 the second has N = 0 and no `<x^2>`, so emsd's `<x^2>` is 2 v, where v is the first probe's `<x^2>`. The same holds for `<x>`, `<y>` and `<y^2>`; for msd it holds where pandas sums two NaN to NaN. | `sum(v N) / sum(N)` over the probes where the statistic is present. | not executed | EnsembleMsd.ZeroCountProbeInflates | EnsembleMsd.WeightedAverage |
