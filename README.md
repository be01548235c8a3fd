# pg_weighted_statistics in Dafny

pg_weighted_statistics is a PostgreSQL extension. It computes weighted statistics over
*sparse* samples: a values array and a weights array, where weights that sum to less than 1
mean the missing mass sits on the value 0. It provides:

- `weighted_mean`, `weighted_variance` and `weighted_std` (with a `ddof` argument);
- three weighted quantile estimators:
  - `weighted_quantile`, an interpolated empirical CDF;
  - `wquantile`, a weighted Hyndman–Fan Type 7 estimator;
  - `whdquantile`, a weighted Harrell–Davis estimator.

The repository holds three C generations of these functions and a numpy/scipy reference:

- the current split sources (`src/utils.c`, `src/weighted_mean.c`, `src/weighted_variance.c`,
  `src/weighted_quantiles.c`);
- an older monolithic file (`src/weighted_statistics.c`);
- the oldest variant (`reia_weighted_stats/reia_weighted_stats.c`);
- the reference (`reference/weighted_stats.py`, `reference/weighted_quantile.py`).

This project models all of them and proves what they compute.

**How the C code is modelled.** The C code is modelled imperatively, over `array`s:

- the in-place pair sorts: comparison, counting and LSD radix, sharing one stable counting pass;
- the pair-building buffer, the implicit `(0, 1 - total)` pair and the in-place normalisation;
- the prefix-sum tables, the binary search and the linear scan;
- the accumulation loops of the moments.

**How the results are specified.** Each method is proved against a specification function:
`Quantile`, `Type7Quantile`, `HdQuantile`, `MeanOf` and `VarianceOf`. The properties of the
estimators are lemmas about those functions. Among them:

- the estimate stays within the value range;
- quantiles are monotone in the probability;
- the Type 7 and Harrell–Davis element weights telescope to 1;
- Kish's effective size does not depend on scale;
- the moments do not change when rows are permuted or the sample is densified.

**How the Python reference is modelled.** The reference is modelled as pure functions. Lemmas
state exactly where it agrees with the extension and where it does not.

**Shared conventions:**
- Values and weights are `real`.
- `Double` (`Finite | NaN | PosInf | NegInf`) appears only where the code tests `isnan`/`isinf`.
- A call ends in `Outcome`: SQL `NULL`, an `ereport(ERROR)` (`Raise`) or a value (`Return`).
- SQL arrays with NULL elements are `Option<seq<Option<T>>>`.

## Model

| member | source | states |
|---|---|---|
| Wrappers.Zeros | src/weighted_quantiles.c:111-129 | the result for a NULL argument: exactly one 0.0 per requested probability |
| Pairs.CompareValueWeight | src/utils.c:19-28 | the comparator answers -1, 1 or 0 exactly as the first value is below, above or equal to the second |
| Pairs.CompareIgnoresWeight | src/weighted_statistics.c:41-49 | re-weighting either record never changes the comparison: weights play no part in the order |
| Pairs.TotalWeightPermutation | src/utils.c:156-190 | any reordering of the pairs (every sort path) keeps the total weight |
| Pairs.PositivePairs | src/weighted_quantiles.c:171-179 | the pair-building loop keeps at most the input length of entries, all of positive weight |
| Pairs.PositivePairsOfRows | src/weighted_quantiles.c:171-179 | the kept pairs are exactly the input rows of weight > 0, in input order |
| Pairs.ImplicitZeroAdded | src/weighted_quantiles.c:181-187 | below a total of 1 the appended (0, 1 - total) pair raises the total to exactly 1 |
| Pairs.ClosedPairsShape | src/weighted_quantiles.c:168-187 | the closed pairs: 1 <= count <= input length + 1 (the buffer size), all weights positive, total max(sum, 1) >= 1, the kept pairs first |
| Pairs.ClosedPairsPermutation | src/weighted_mean.c:60-80 | permuting input rows in lockstep permutes the positive pairs and the closed pairs |
| SparsePairs.BuildClosedPairs | src/weighted_quantiles.c:340-359 | fills a buffer of length + 1 slots with exactly the closed pairs and returns their total |
| SparsePairs.CollectPositive | src/weighted_quantiles.c:343-351 | the loop writes exactly the positive pairs into the buffer and sums exactly their weights |
| SparsePairs.CumulativeWeightsFacts | src/weighted_quantiles.c:195-201 | entry i of the running sums is the weight of the first i + 1 pairs; with positive weights they rise strictly; the last is the total |
| SparsePairs.CumulativeWeightsOf | src/weighted_quantiles.c:196-201 | the loop fills a fresh table with exactly the running sums |
| SparsePairs.FirstAtLeast | src/weighted_quantiles.c:221-230 | the least index whose running sum reaches the target: everything before is below it, the index itself reaches it |
| SparsePairs.BinarySearch | src/weighted_quantiles.c:217-230 | over non-decreasing sums whose last reaches t, the search returns the least index whose sum reaches t |
| SparsePairs.BinarySearchIsFirstAtLeast | src/weighted_quantiles.c:221-230 | the index the search finds is the first-index definition's |
| Extract.NullsToZero | src/utils.c:223-226 | every NULL element reads as 0.0, every other element is copied unchanged, length kept |
| Extract.ExtractDoubleArrays | src/utils.c:192-229 | a length mismatch raises the error, exactly then; otherwise both columns are copied with NULL read as 0.0 |
| Bucketing.CountKeys | src/utils.c:125-136 | after the counting loop, count[d] is the number of records in bucket d |
| Bucketing.BucketEnds | src/utils.c:139-141 | after the prefix loop, count[d] is the end of bucket d in the output |
| Bucketing.PlaceBackwards | src/utils.c:144-147 | placing from the last record backwards at each bucket's pre-decremented end yields the stable bucketed order |
| Bucketing.CountingPass | src/utils.c:55-88 | one count/prefix/place/copy pass leaves a[0..n) in stable bucket order and touches nothing after n |
| Bucketing.BucketedPermutes | src/utils.c:75-88 | a pass only rearranges: the output is a permutation of the input of the same length |
| Bucketing.BucketedStable | src/utils.c:75-85 | a pass is stable: each bucket's records keep their input order |
| Bucketing.BucketedOrdered | src/utils.c:144-147 | bucket numbers never decrease along the output |
| Bucketing.BucketedSortsLex | src/utils.c:48-89 | a pass by key over records sorted by f leaves them sorted by key, then by f within a key |
| RadixKeys.XorSign | src/utils.c:64 | `^=` of the sign bit toggles it and keeps the other 63 bits |
| RadixKeys.OrSign | src/weighted_statistics.c:78 | `|=` of the sign bit sets it and keeps the other 63 bits |
| RadixKeys.Not | src/utils.c:62 | `~` flips every bit: key + ~key = 2^64 - 1 |
| RadixKeys.LegacyKeySame | src/weighted_statistics.c:75-79 | the older key with `|=` equals the newer key with `^=`: the sign bit is clear on that branch |
| RadixKeys.KeyOrder | src/utils.c:58-65 | key order is sign-magnitude order of the bit patterns, except that -0 sorts just below +0 |
| RadixKeys.KeyInjective | src/utils.c:58-65 | distinct bit patterns get distinct keys, so -0 and +0 stay apart |
| RadixKeys.Digit | src/utils.c:66 | `(key >> 8b) & 0xFF` is below 256 |
| RadixKeys.RankStep | src/utils.c:75-85 | one more stable pass over byte b orders by that byte first and by the earlier rank second |
| RadixKeys.RankAscendingIsKey | src/utils.c:48-89 | passes over bytes 0, 1, ..., 7 rank a 64-bit key by its own value |
| RadixKeys.RankDescendingHigh | src/utils.c:48 | passes 7, 6, ..., 0 rank a key whose low six bytes are zero by byte 6 first and byte 7 second |
| RadixKeys.RankDescendingOneTwo | src/utils.c:48-89 | under passes 7 down to 0 the key of 2.0 ranks below the key of 1.0 |
| Sorting.ComparisonSort | src/utils.c:165-168 | the `qsort` stand-in: a[0..n) ends sorted by value, a permutation of its old contents, the rest untouched |
| Sorting.PassesPermutes | src/utils.c:48-89 | any sequence of byte passes only reorders the records |
| Sorting.PassesRanked | src/utils.c:48-89 | stable passes over bytes ps sort by the rank they define, the last pass's byte deciding first |
| Sorting.RadixAscendingSorts | src/utils.c:44-89 | passes over bytes 0 to 7 sort by value whenever the bit patterns encode the value order |
| Sorting.RadixDescendingMisorders | src/utils.c:48-89 | after passes 7 down to 0, a 1.0 is never placed before a 2.0 |
| Sorting.RadixDescendingUnsorted | src/utils.c:47-89 | any input holding both 2.0 and 1.0 is left unsorted by passes 7 down to 0 |
| Sorting.RadixSortAsWritten | src/utils.c:30-92 | the radix sort as written: a permutation; sorted below 256 records; from 256 records on, the result of passes 7 down to 0 |
| Sorting.BytePassesDownward | src/utils.c:48-89 | the byte loop as written is exactly passes 7, 6, ..., 0 |
| Sorting.RadixSort | src/utils.c:30-92 | the corrected definition of the radix finding (passes over bytes 0 up to 7 instead of 7 down to 0): a permutation, sorted by value, nothing after n touched |
| Sorting.BytePassesUpward | src/utils.c:48-89 | the corrected byte loop of the radix finding (the source runs it downward) is exactly passes 0, 1, ..., 7 |
| Sorting.ValueBounds | src/utils.c:103-109 | the scanned min and max bound every value and are values of the input |
| Sorting.BucketInRange | src/utils.c:126-134 | under the counting sort's range test every bucket lies in [0, range_int): the fallback guard never fires |
| Sorting.CountingSortOrders | src/utils.c:120-147 | with whole-number values, one pass with a bucket per whole number sorts by value |
| Sorting.CountingSort | src/utils.c:94-154 | a permutation; sorted whenever the range test fails (radix fallback) or values are whole; the bucketed order when the test passes |
| Sorting.CountingPlace | src/utils.c:120-150 | the count, prefix and place loops give the stable bucketing by value - min |
| Sorting.ScanRange | src/utils.c:103-109 | the scan returns exactly the minimum and the maximum value |
| Sorting.DispatchCountingApplies | src/utils.c:184 | whenever the dispatch picks the counting sort, the counting sort's own range test passes |
| Sorting.OptimizedSort | src/utils.c:156-190 | every dispatch path leaves a[0..n) sorted by value and a permutation of its old contents, records moved intact |
| Sorting.ScanValues | src/utils.c:171-179 | the dispatch scan returns the min, the max and whether every value is whole |
| EmpiricalQuantile.ProbabilityValue | src/weighted_quantiles.c:142 | a valid probability lies in [0, 1] and a NULL one reads as 0 |
| EmpiricalQuantile.ReadProbabilities | src/weighted_quantiles.c:140-150 | any entry below 0, above 1, NaN or infinite raises the error, exactly then; otherwise the probabilities in argument order |
| EmpiricalQuantile.LerpBetween | src/weighted_quantiles.c:240-241 | interpolation with a fraction in [0, 1] stays between the two values and reaches the upper one at 1 |
| EmpiricalQuantile.FractionBounds | src/weighted_quantiles.c:240 | a target inside a step gives a fraction in (0, 1], and 1 at the step's end |
| EmpiricalQuantile.SearchPosition | src/weighted_quantiles.c:218-230 | the search position is an index of the pairs |
| EmpiricalQuantile.SearchFindsStep | src/weighted_quantiles.c:214-232 | past the first weight and below the total the search lands on a later step, with the sum before it below the target and its own at or above it |
| EmpiricalQuantile.ValueInStep | src/weighted_quantiles.c:232-242 | there the value is the exact hit or the interpolation inside the step found |
| EmpiricalQuantile.QuantileInterior | src/weighted_quantiles.c:205-216 | strictly inside (0, 1) the quantile is the value the target q * total reaches |
| EmpiricalQuantile.ValueBetweenNeighbours | src/weighted_quantiles.c:234-241 | over sorted pairs the result lies between vw_pairs[pos - 1] and vw_pairs[pos] |
| EmpiricalQuantile.QuantileWithinRange | src/weighted_quantiles.c:204-246 | over sorted pairs every quantile lies between the smallest and the largest value |
| EmpiricalQuantile.ValueMonotone | src/weighted_quantiles.c:214-242 | over sorted pairs a larger target weight never reaches a smaller value |
| EmpiricalQuantile.QuantileMonotone | src/weighted_quantiles.c:204-246 | a larger probability never gives a smaller quantile |
| EmpiricalQuantile.QuantileAt | src/weighted_quantiles.c:205-243 | the edge tests and the binary search compute the empirical quantile at q |
| EmpiricalQuantile.SearchAndInterpolate | src/weighted_quantiles.c:217-242 | the binary search and the exact-hit/interpolation step give the value the target reaches |
| EmpiricalQuantile.QuantilesOf | src/weighted_quantiles.c:203-246 | one quantile per probability, in argument order |
| EmpiricalQuantile.QuantilesOfColumns | src/weighted_quantiles.c:168-246 | the results are the quantiles of a sorted permutation of the closed pairs |
| EmpiricalQuantile.SortedClosedPairs | src/weighted_quantiles.c:168-190 | the buffer holds a sorted permutation of the closed pairs, their total alongside |
| EmpiricalQuantile.WeightedQuantileSparse | src/weighted_quantiles.c:93-262 | NULL values or weights give zeros; an invalid probability and then a length mismatch raise; otherwise one empirical quantile of the sorted closed pairs per probability |
| Normalised.ScaledAt | src/weighted_quantiles.c:365-367 | normalising keeps each value and divides each weight by the total |
| Normalised.ScaledTotal | src/weighted_quantiles.c:365-367 | dividing every weight by the total divides their sum by it |
| Normalised.NormalisedSumsToOne | src/weighted_quantiles.c:364-367 | closed pairs divided by their total sum to exactly 1 |
| Normalised.NormaliseWeights | src/weighted_quantiles.c:365-367 | the in-place loop divides exactly weights 0..n by the total and touches nothing else |
| Normalised.SquaredWeightsAtMostOne | src/weighted_quantiles.c:370-374 | normalised closed pairs have squared weights summing into (0, 1] |
| Normalised.EffectiveSize | src/weighted_quantiles.c:374 | n_eff = 1 / sum of squared normalised weights is at least 1 |
| Normalised.EffectiveSizeAboveOne | src/weighted_quantiles.c:568 | n_eff exceeds 1 exactly when there are two or more pairs |
| Normalised.Normalise | src/weighted_quantiles.c:364-367 | normalised pairs are closed, sum to 1, keep length, values and order |
| Normalised.EffectiveSizeScaleFree | src/weighted_quantiles.c:369-374 | n_eff of the normalised pairs equals Kish's (sum w)^2 / sum w^2 on the raw weights |
| Normalised.SumSquaredWeights | src/weighted_quantiles.c:370-373 | the loop computes exactly the sum of squared weights |
| Normalised.CumulativeProbsAt | src/weighted_quantiles.c:376-381 | cum_probs[i] is the weight of the first i pairs: 0 first, the total last |
| Normalised.CumulativeProbsNonDecreasing | src/weighted_quantiles.c:376-381 | with positive weights cum_probs never decreases |
| Normalised.CumulativeProbsOf | src/weighted_quantiles.c:378-381 | the loop fills a fresh table of n + 1 entries with exactly cum_probs |
| Normalised.NormaliseAndTabulate | src/weighted_quantiles.c:364-381 | normalises in place, returns n_eff of the normalised pairs and their cum_probs table |
| CdfWeights.RiseTotalTelescopes | src/weighted_quantiles.c:400-415 | the element weights telescope to the CDF's rise from the first grid point to the last |
| CdfWeights.CdfMixBetween | src/weighted_quantiles.c:400-415 | with a non-decreasing CDF the weighted sum lies between lo and hi times the rise |
| CdfWeights.CdfMixWithinRange | src/weighted_quantiles.c:400-415 | a CDF from 0 to 1 that never falls makes a convex combination: within [first, last] sorted value |
| CdfWeights.CdfMixOfConstant | src/weighted_quantiles.c:400-415 | with a CDF from 0 to 1 the weighted sum of a constant c is c |
| ClampedCdf.ClampedLineIsType7Cdf | src/weighted_quantiles.c:397-405 | the C expression is the Type 7 CDF: x * n - (h - 1) clamped to [0, 1] |
| ClampedCdf.ClampedLineEnds | src/weighted_quantiles.c:402-405 | the clamped line is 0 at (h - 1)/n and 1 at h/n |
| ClampedCdf.Type7CdfBounds | src/weighted_quantiles.c:402-405 | the Type 7 CDF stays in [0, 1] |
| ClampedCdf.Type7CdfMonotone | src/weighted_quantiles.c:402-405 | for n > 0 the Type 7 CDF never falls |
| ClampedCdf.Type7CdfEnds | src/weighted_quantiles.c:397-405 | for n_eff >= 1 and p in [0, 1] the CDF is 0 at 0 and 1 at 1 |
| Type7.Type7Grid | src/weighted_quantiles.c:400-412 | the CDF evaluated at each cumulative probability, one point per entry |
| Type7.Type7GridShape | src/weighted_quantiles.c:397-415 | over normalised pairs the grid runs from 0 to 1 without falling; each element weight lies in [0, 1]; together they sum to 1 |
| Type7.Type7WithinRange | src/weighted_quantiles.c:391-416 | over sorted pairs every Type 7 estimate lies between the smallest and largest value |
| Type7.Type7OfConstant | src/weighted_quantiles.c:391-416 | when every value is c, every Type 7 estimate is c |
| Type7.Type7Sum | src/weighted_quantiles.c:400-415 | the inner loop computes the CDF-weighted sum over the Type 7 grid |
| Type7.CellWeight | src/weighted_quantiles.c:402-412 | the weight of cell i is the CDF rise over that cell |
| Type7.Type7At | src/weighted_quantiles.c:386-419 | the endpoint tests and the inner loop compute the Type 7 estimate at p |
| Type7.Type7Of | src/weighted_quantiles.c:385-419 | one Type 7 estimate per probability, in argument order |
| Type7.Type7OfColumns | src/weighted_quantiles.c:340-419 | the estimates are those of a sorted permutation of the closed pairs |
| Type7.WQuantileSparse | src/weighted_quantiles.c:271-435 | NULL arguments give zeros; an invalid probability and then a length mismatch raise; otherwise one Type 7 estimate per probability |
| HarrellDavis.ReflectionBelowPoint | src/weighted_quantiles.c:45-49 | a reflected point lies below the reflected parameters' symmetry point, so the recursion is one level deep |
| HarrellDavis.BetaCdfOneReflection | src/weighted_quantiles.c:45-49 | inside (0, 1) with positive shapes the continued fraction is reached directly or after exactly one reflection |
| HarrellDavis.HdMixIsCdfMix | src/weighted_quantiles.c:572-577 | the accumulation is defined exactly when every grid point is, and then equals the CDF-weighted sum |
| HarrellDavis.GridAt | src/weighted_quantiles.c:572-574 | beta_cdf at every cum_probs entry: one point more than there are pairs |
| HarrellDavis.DegenerateExactly | src/weighted_quantiles.c:564-570 | the NaN test fires exactly when p is outside (0, 1) or there is a single pair; otherwise both shapes are positive |
| HarrellDavis.HdWeightsTelescope | src/weighted_quantiles.c:572-577 | the grid runs from beta_cdf(0) = 0 to beta_cdf(1) = 1, so the weights sum to 1 |
| HarrellDavis.HdOfConstant | src/weighted_quantiles.c:559-581 | a defined estimate of an all-c distribution is c |
| HarrellDavis.HdWithinRange | src/weighted_quantiles.c:559-581 | where the grid never falls, a defined estimate lies within [first, last] sorted value |
| HarrellDavis.HdSum | src/weighted_quantiles.c:572-577 | the inner loop computes the accumulation over the beta grid |
| HarrellDavis.HdAt | src/weighted_quantiles.c:559-580 | the NaN test and the inner loop compute the Harrell–Davis estimate at p |
| HarrellDavis.HdOf | src/weighted_quantiles.c:558-581 | one estimate per probability in argument order, NaN where undefined |
| HarrellDavis.HdOfColumns | src/weighted_quantiles.c:513-581 | the estimates are those of a sorted permutation of the closed pairs |
| HarrellDavis.ZeroDoubles | src/weighted_quantiles.c:461-476 | a NULL argument gives one finite 0.0 per probability |
| HarrellDavis.WhdQuantileSparse | src/weighted_quantiles.c:444-597 | NULL arguments give zeros; an invalid probability and then a length mismatch raise; otherwise one Harrell–Davis estimate per probability |
| Moments.ClampedTotal | src/utils.c:268-271 | the denominator is at least 1 and is the total weight of the closed pairs |
| Moments.EffectiveCount | src/utils.c:310-324 | Kish's effective count of the closed distribution is at least 1 |
| Moments.MeanIsClosedAverage | src/weighted_mean.c:82-98 | the mean is the weighted average of the closed distribution: the implicit zero adds mass, not sum |
| Moments.MeanWithinRange | src/weighted_mean.c:60-98 | the mean lies within any bounds of the closed distribution's values |
| Moments.MeanWithinValues | src/weighted_mean.c:83-98 | with unit mass or more the mean lies between the least and the greatest input value |
| Moments.MeanOfConstant | src/weighted_mean.c:60-98 | with unit mass or more, an all-c input has mean c |
| Moments.VarianceOfConstant | src/weighted_variance.c:102-131 | with unit mass or more, an all-c input has population variance 0 and every defined corrected variance 0 |
| Moments.MomentsOfZeroWeights | src/weighted_mean.c:94-98 | with no positive weight the closed pairs are (0, 1), and mean and variances are 0, not NULL: the zero test is unreachable |
| Moments.EffectiveCountIsEffectiveSize | src/weighted_variance.c:135-149 | Kish's count on raw closed weights equals the quantile code's 1 / sum of squared normalised weights |
| Moments.SampleVarianceDefined | src/weighted_variance.c:149-155 | with ddof 1 the variance is NULL exactly when the closed distribution is a single entry |
| Moments.VarianceNonNegative | src/weighted_variance.c:128-159 | every defined variance is non-negative, and removing degrees of freedom never lowers it |
| Moments.CorrectionVanishesAtZero | src/weighted_variance.c:129-131 | the corrected formula at ddof 0 is the population variance: the separate ddof 0 branch agrees |
| Moments.DensifyKeepsMoments | src/weighted_variance.c:89-126 | writing the missing mass as an explicit (0, gap) entry keeps the mean and every variance |
| Moments.MomentsPermutation | src/weighted_mean.c:60-80 | permuting rows in lockstep changes neither the mean nor any variance |
| Moments.MeanAppendZeroValues | src/weighted_mean.c:82-87 | appending zero-valued entries that keep the positive total at most 1 leaves the mean unchanged |
| Moments.SumPositiveWeights | src/weighted_variance.c:76-87 | the loop stops on a negative weight, exactly when one exists, and otherwise sums the positive weights |
| Moments.SumWeightedValues | src/weighted_variance.c:103-107 | the loop sums value * weight over exactly the positive weights |
| Moments.SumSquaredDeviations | src/weighted_variance.c:111-126 | squared deviations over the positive pairs plus the implicit zero's term: those of the closed distribution |
| Moments.PositiveSquaredDeviations | src/weighted_variance.c:114-119 | the loop sums w (v - mean)^2 over exactly the positive pairs |
| Moments.SumSquaredWeights | src/weighted_variance.c:135-147 | squared weights of the positive pairs plus the implicit zero's: those of the closed distribution |
| Moments.VarianceOfColumns | src/weighted_variance.c:75-159 | a negative weight raises; otherwise NULL when n_eff <= ddof, else the variance of the closed distribution |
| Moments.ApplyCorrection | src/weighted_variance.c:149-158 | NULL exactly when n_eff <= ddof, otherwise the population variance times n_eff / (n_eff - ddof) |
| Moments.DeviationsFromMean | src/weighted_variance.c:102-126 | the squared deviations of the closed distribution from its mean |
| Moments.EffectiveCountOf | src/weighted_variance.c:135-149 | n_eff = (clamped total)^2 / (sum of squared closed weights) |
| Moments.CalculateWeightedVariance | src/utils.c:235-335 | NaN for a missing array, negative count or ddof; 0.0 for no entries; NaN for a negative weight or n_eff <= ddof; otherwise the variance |
| WeightedVariance.WeightedVarianceSparse | src/weighted_variance.c:27-166 | NULL arrays give 0.0; negative ddof, then length mismatch, raise; empty gives 0.0; otherwise the variance outcome |
| WeightedVariance.WeightedStdSparse | src/weighted_variance.c:177-317 | the same checks and outcomes as the variance, with the square root applied to a returned value; NULL in exactly the same cases |
| WeightedVariance.EmptyShortcut | src/weighted_variance.c:68-73 | the general rule would give 0 for empty input only at ddof 0 (NULL otherwise): the shortcut is a behaviour of its own |
| WeightedVariance.VarianceOutcomeNonNegative | src/weighted_variance.c:128-165 | every variance the entry point returns is non-negative |
| WeightedMean.Check | src/weighted_mean.c:61-79 | an entry passes its checks exactly when both are finite and the weight is non-negative |
| WeightedMean.FirstProblemIsFirst | src/weighted_mean.c:61-75 | no error exactly when every entry passes; a reported error is the check of an entry all of whose predecessors pass |
| WeightedMean.WeightedMeanSparse | src/weighted_mean.c:29-99 | NULL arrays and empty arrays give NULL; a length mismatch raises; then the first failing entry's error; otherwise the sparse mean |
| WeightedMean.MeanOfDoubles | src/weighted_mean.c:60-98 | the first failing entry's error, else sum w v / max(sum w, 1) over the positive weights |
| WeightedMean.AccumulateChecked | src/weighted_mean.c:61-80 | the loop stops at the first failing entry, else returns sum w v and sum w over exactly the positive weights |
| WeightedMean.CheckedInputsAreReal | src/weighted_mean.c:69-75 | inputs that pass every check are finite doubles whose readings obey the moment lemmas |
| Legacy.UndividedMean | src/weighted_statistics.c:240-285 | NULL gives 0.0; a length mismatch raises; otherwise sum w v over positive weights, undivided |
| Legacy.UndividedSumVersusMean | src/weighted_statistics.c:272-284 | the undivided sum is the mean up to unit mass; above it the mean is the sum divided by the total |
| Legacy.UndividedMeanOverFullMass | src/weighted_statistics.c:284 | value 2 with weight 2 gives 4 where the mean is 2 |
| Legacy.CopyProbabilities | src/weighted_statistics.c:346-349 | the probability copy reads NULL as 0.0 and checks nothing |
| Legacy.LegacyQuantileSparse | src/weighted_statistics.c:301-461 | NULL arguments give zeros; a length mismatch raises; otherwise the empirical quantile of the sorted closed pairs at every probability, unchecked |
| Legacy.Clamp01 | src/weighted_statistics.c:409-414 | a probability clamped to [0, 1]; one already inside is unchanged |
| Legacy.OutOfRangeClamps | src/weighted_statistics.c:409-414 | an unchecked q < 0 answers the first value, q > 1 the last: as if clamped to [0, 1] |
| Legacy.LegacyProbabilitiesAgree | src/weighted_statistics.c:346-349 | on probabilities the checked entry point accepts, the unchecked copy reads the same numbers, so both agree |
| Reia.ReiaClosedPairs | reia_weighted_stats/reia_weighted_stats.c:209-227 | the buffer holds exactly the closed pairs; it grows by one slot exactly when the total is below 1 |
| Reia.AddImplicitZero | reia_weighted_stats/reia_weighted_stats.c:220-227 | a buffer one slot longer holds the pairs and then (0, 1 - total), summing to 1 |
| Reia.Grown | reia_weighted_stats/reia_weighted_stats.c:222 | `repalloc` keeps the first n records in a buffer of n + 1 slots |
| Reia.ReiaQuantileAt | reia_weighted_stats/reia_weighted_stats.c:235-268 | the edge tests and the linear scan compute the same empirical quantile as the binary search |
| Reia.ScanAndInterpolate | reia_weighted_stats/reia_weighted_stats.c:247-264 | for a real target strictly between the first weight and the total, the scan stops at the first running sum reaching it and gives the empirical quantile's value there, never the default 0.0 |
| Reia.ScanStep | reia_weighted_stats/reia_weighted_stats.c:248-252 | before the step the search finds, the scan's running sum stays below the target |
| Reia.ScanValue | reia_weighted_stats/reia_weighted_stats.c:252-261 | at that step the scan's factor (target - prev) / weight gives the quantile value |
| Reia.EdgeOrderHarmless | reia_weighted_stats/reia_weighted_stats.c:242-245 | testing the first weight before q >= 1 matters only for a single pair, where first and last coincide |
| Reia.ReiaQuantilesOf | reia_weighted_stats/reia_weighted_stats.c:235-268 | one result per probability, in argument order |
| Reia.ReiaQuantileSparse | reia_weighted_stats/reia_weighted_stats.c:143-282 | NULL arguments give zeros; a length mismatch raises; otherwise the empirical quantile of the sorted closed pairs at every unchecked probability |
| Reia.TieOrderMatters | reia_weighted_stats/reia_weighted_stats.c:230 | two sorted orders of the same pairs, differing only among equal values, give different quantiles at 0.6 |
| ReferenceStats.SquaresNonNegative | reference/weighted_stats.py:124 | a sum of squares is never negative |
| ReferenceStats.Pad | reference/weighted_stats.py:47-52 | the padded arrays have equal lengths and a total of max(sum, 1) that is their own weight sum |
| ReferenceStats.RescaledIsCorrected | reference/weighted_stats.py:118-131 | for ddof >= 0 the reference's ddof step is the extension's correction, NULL read as NaN |
| ReferenceStats.RescaledShrinks | reference/weighted_stats.py:124-131 | for ddof < 0 the ddof step shrinks a non-negative spread and stays non-negative |
| ReferenceStats.AsFloat | reference/weighted_stats.py:126-127 | a C outcome as the reference reports it: NULL exactly as NaN, errors and values kept |
| ReferenceStats.SumsOverPositivePairs | reference/weighted_stats.py:45 | with no negative weight the numpy weight sum is the total of the positive pairs |
| ReferenceStats.PadIsClosed | reference/weighted_stats.py:47-52 | the padded arrays' positive pairs are exactly the extension's closed pairs |
| ReferenceStats.PaddedSums | reference/weighted_stats.py:47-58 | the numpy sums of the padded arrays are those of the closed distribution |
| ReferenceStats.PyMeanAgrees | reference/weighted_stats.py:14-58 | empty gives 0.0; mismatch and a negative weight raise; otherwise exactly the extension's mean |
| ReferenceStats.SpreadIsPopulationVariance | reference/weighted_stats.py:115-120 | the reference's averaged squared deviation is the extension's population variance |
| ReferenceStats.NEffIsEffectiveCount | reference/weighted_stats.py:124 | the reference's n_eff is the extension's effective count |
| ReferenceStats.PyVarianceAgrees | reference/weighted_stats.py:61-133 | empty gives 0.0; mismatch and a negative weight raise; for ddof >= 0 exactly the extension's variance outcome, NULL as NaN |
| ReferenceStats.CorrectedVarianceAgrees | reference/weighted_stats.py:114-133 | after the checks the reference variance is the extension's corrected variance |
| ReferenceStats.NegativeDdofShrinks | reference/weighted_stats.py:124-131 | a negative ddof (rejected by the extension) gives a value at most the population variance |
| ReferenceStats.PyStdAgrees | reference/weighted_stats.py:136-158 | for ddof >= 0 the reference std is the square root of the extension's variance, NaN where it is NULL |
| ReferenceQuantile.AddMissingZeroes | reference/weighted_quantile.py:5-30 | always appends 0 with weight 1 - sum, whatever the sum: values and weights grow by one |
| ReferenceQuantile.Completed | reference/weighted_quantile.py:74-75 | after the guarded padding the columns have equal length >= 1 and weigh at least 1 |
| ReferenceQuantile.CumSum | reference/weighted_quantile.py:81 | `np.cumsum` keeps the length |
| ReferenceQuantile.SortedRowsAreClosed | reference/weighted_quantile.py:74-79 | with positive weights the sorted padded rows are a sorted permutation of the closed pairs |
| ReferenceQuantile.SortedRowsTotalOne | reference/weighted_quantile.py:74-75 | positive weights summing to at most 1 are padded to exactly 1 |
| ReferenceQuantile.CumSumOfWeights | reference/weighted_quantile.py:81 | `np.cumsum(weights)` is the extension's running weight sums |
| ReferenceQuantile.InterpIsQuantile | reference/weighted_quantile.py:83 | interpolating at q against the running sums of a closed distribution of total 1 is its empirical quantile |
| ReferenceQuantile.InterpolatedIsQuantiles | reference/weighted_quantile.py:83 | the same at every probability |
| ReferenceQuantile.PyQuantileRejects | reference/weighted_quantile.py:71-72 | a quantile outside [0, 1] fails the assertion |
| ReferenceQuantile.PyQuantileAgrees | reference/weighted_quantile.py:33-83 | positive weights summing to at most 1 and quantiles in [0, 1]: exactly the extension's quantiles of the sorted closed pairs |
| ReferenceQuantile.PyQuantileUnnormalised | reference/weighted_quantile.py:81-83 | weights [1, 1] on [1, 2] at q = 1 give 1 where the extension gives 2: the running sums are not divided by the total |
| ReferenceQuantile.PyKishSize | reference/weighted_quantile.py:120 | n_eff is Kish's size of the padded weights, and positive |
| ReferenceQuantile.CdfProbs | reference/weighted_quantile.py:126 | `cdf_probs` has one entry more than there are rows |
| ReferenceQuantile.CdfProbsAreCumulative | reference/weighted_quantile.py:126 | `cdf_probs` is the extension's cum_probs: 0, then each running sum |
| ReferenceQuantile.Rises | reference/weighted_quantile.py:131 | one rise per step, one fewer than grid points |
| ReferenceQuantile.PyMixIsCdfMix | reference/weighted_quantile.py:131-132 | the rise-weighted sum is the extension's CDF-weighted sum |
| ReferenceQuantile.PyWQuantileGeneric | reference/weighted_quantile.py:86-133 | one estimate per requested quantile, in order |
| ReferenceQuantile.GenericIsGenMix | reference/weighted_quantile.py:115-133 | with positive weights, for every CDF generator, each estimate is the CDF mix over the normalised sorted closed pairs at the extension's n_eff |
| ReferenceQuantile.PyType7CdfShape | reference/weighted_quantile.py:191-193 | `type_7_cdf` stays in [0, 1], never falls, is 0 at (h - 1)/n and 1 at h/n |
| ReferenceQuantile.PyWQuantile | reference/weighted_quantile.py:224-226 | one Type 7 estimate per quantile |
| ReferenceQuantile.Type7MixAgrees | reference/weighted_quantile.py:224-226 | inside (0, 1) the reference's Type 7 mix is the extension's Type 7 estimate |
| ReferenceQuantile.Type7GridIsGenGrid | reference/weighted_quantile.py:191-193 | `type_7_cdf` computes the extension's clamped CDF point by point |
| ReferenceQuantile.PyWQuantileAgrees | reference/weighted_quantile.py:196-226 | positive weights, quantiles in (0, 1): `wquantile` is exactly the extension's Type 7 estimate |
| ReferenceQuantile.PyWQuantileAtZero | reference/weighted_quantile.py:128-132 | at p = 0 the extension gives the smallest value 0 while `wquantile` on ([0, 1], [0.25, 0.75]) gives 0.6 |
| ReferenceQuantile.PyWhdQuantile | reference/weighted_quantile.py:136-168 | one Harrell–Davis estimate per quantile |
| ReferenceQuantile.HdMixAgrees | reference/weighted_quantile.py:166-167 | with at least two pairs and p in (0, 1) the extension's estimate is defined and is the beta mix |
| ReferenceQuantile.PyWhdQuantileAgrees | reference/weighted_quantile.py:136-168 | positive weights, at least two closed pairs, quantiles in (0, 1): `whdquantile` is exactly the extension's estimate |
| ReferenceQuantile.PyWhdSingleRow | reference/weighted_quantile.py:166-168 | over a single closed pair the extension answers NaN while `whdquantile` answers that pair's value |

## Left out

- Floating point: values, weights and every sum are exact reals. Rounding, overflow and
  `-0.0` as a value are not modelled. The exact-hit test `cumulative_weights[pos] == target_weight`
  is therefore exact.
- The IEEE 754 reinterpretation through `union conv` is a parameter: `bitsOf: real -> U64`.
  The sorts require it to encode the value order on the values present. Only the patterns of
  1.0 and 2.0 are fixed, and only where the radix finding uses them.
- 64-bit keys are integers in [0, 2^64). Byte extraction is `div`/`mod` by powers of 256, not
  bit-vector shifts.
- `qsort` is modelled by its promise: some ordered permutation. An insertion sort stands in for
  it. The order among equal values is unspecified in C, and `Reia.TieOrderMatters` shows that it
  reaches the result. Every quantile lemma therefore holds for *any* sorted order.
- NaN values on the quantile paths are not modelled. The comparator is no total order on them.
- Reia.ReiaQuantileSparse and Legacy.LegacyQuantileSparse: their unchecked probabilities are
  reals, so NaN and infinite probabilities are not modelled. In the oldest variant a NaN
  probability fails every edge test and never ends the scan, so it returns the default 0.0
  (reia_weighted_stats.c:239-264). In the older file it returns the single value for one pair
  and NaN from the interpolation for two or more (weighted_statistics.c:409-440). There an
  infinite probability falls into the `q <= 0` or `q >= 1` branch, giving the first or the last
  value.
- PostgreSQL glue is not modelled: `PG_ARGISNULL`, `deconstruct_array`, `construct_array`,
  `palloc`/`pfree`, Datum conversions. Nor is the longjmp of `ereport`. Arguments are
  `Option`s and results `Outcome`s.
- The `< 0` branches after `extract_double_arrays` cannot be reached, because `ereport(ERROR)`
  does not return. The model reports the error.
- A NULL `quantiles` argument is not modelled (`requires quantiles.Some?`). The C code
  dereferences it even on its NULL path.
- `beta_cdf` is only partly modelled:
  - Modelled: the edge rules and the one-level symmetry recursion.
  - A parameter (`LentzCore`): the continued fraction itself (lgamma/exp/log, the Lentz
    recurrence, the 1e-8 and 1e-30 constants, the loop of at most 201 iterations and its NaN on
    non-convergence).
  - `HarrellDavis.HdWithinRange` assumes the grid never falls. The C code does not guarantee
    this of its continued fraction.
- Library calls in the reference are parameters: `np.sqrt` and `sqrt` (`sqrt: real -> real`),
  `np.argsort` (any `Sorter` that returns a sorted permutation) and `scipy.stats.beta.cdf`
  (`BetaCdfFn`).
- `np.interp` is modelled only on strictly increasing `xp`. That holds for the positive weights
  the agreement lemmas assume. Rows of weight 0, which the reference keeps and the extension
  drops, are outside those lemmas. So is a negative weight, which `weighted_quantile` never
  checks.
- ReferenceQuantile.PyQuantileAgrees: stated only for positive weights summing to at most 1.
  Above 1 the reference does not divide by the total (`PyQuantileUnnormalised` proves the
  divergence).
- ReferenceQuantile.PyWQuantileAgrees: stated only for positive weights and quantiles in (0, 1).
  At p = 0 and p = 1 the extension returns the endpoint values, while the reference evaluates
  the CDF (`PyWQuantileAtZero` proves the divergence).
- ReferenceQuantile.PyWhdQuantileAgrees: stated only for positive weights and at least two closed
  pairs. Over one pair the extension answers NaN (`PyWhdSingleRow`).
- ReferenceStats.PyVarianceAgrees: equality only for ddof >= 0. The reference accepts a negative
  ddof, which the extension rejects (`NegativeDdofShrinks` states what the reference then
  returns). The reference returns 0.0 for empty input where the extension gives NULL for the
  mean. It reports NaN where the extension returns SQL NULL.
- The older file's own sort routines are modelled by the `Sorting` module. Two differences are
  proved harmless:
  - its key uses `|=` where the newer one uses `^=` (`RadixKeys.LegacyKeySame`);
  - its counting loop lacks the bucket guard (`Sorting.BucketInRange`).
  Its radix pass order is the same finding as below.
- The oldest variant's `weighted_mean_sparse_c` (reia_weighted_stats.c:88-133) and
  `extract_double_arrays` (reia_weighted_stats.c:42-78) are the same functions as the older
  file's. They are modelled by `Legacy.UndividedMean` and `Extract.ExtractDoubleArrays`.
- Sorting.OptimizedSort and Sorting.CountingSort: the radix path inside both is the corrected
  `RadixSort`, not the one as written (see Findings). For at least 256 records whose values
  include both 1.0 and 2.0, the source as written does not sort.

## Findings

| source | as written | input that shows it | evidently intended | confidence | as-written member | corrected member |
|---|---|---|---|---|---|---|
| src/utils.c:48-89 | the radix passes run over bytes 7, 6, ..., 0 with stable placement, so byte 0 (the least significant) becomes the primary key; the same loop is at src/weighted_statistics.c:66-103 | any array of 256 or more records holding both 1.0 and 2.0 (keys 0xBFF0... and 0xC000... differ first in byte 6, whose order 0xF0 > 0x00 wins): 2.0 ends before 1.0 | an LSD radix sort, passes over bytes 0, 1, ..., 7, sorting ascending by value | high; not executed | Sorting.RadixDescendingUnsorted | Sorting.RadixSort |
| src/weighted_statistics.c:284 | `weighted_mean` returns the weighted sum without dividing by the total weight (also reia_weighted_stats.c:132) | values [2], weights [2]: returns 4 | the sparse mean sum w v / max(sum w, 1), as in src/weighted_mean.c:83-98, which gives 2 | high; not executed | Legacy.UndividedMeanOverFullMass | WeightedMean.WeightedMeanSparse |
