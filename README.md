# Truncated mean cluster size of a track

This project models `averageClusterSize` from the analysis' common header
(`inc/Common.h`). It is the statistic computed from the packed per-layer
cluster-size word of an inner-tracker track. The word is an unsigned 32-bit
value. Layer `l` (0..6) keeps its cluster size in the four bits starting at
bit `4 * l`, and a zero field means the layer has no cluster. The function:

- decodes the seven fields;
- counts the layers that have a cluster, sums their sizes and keeps the
  largest size;
- returns 0 when no layer has a cluster, and otherwise the sum minus the
  largest size divided by the count minus one. That is the mean of the
  cluster sizes after one occurrence of the largest is discarded.

The Dafny model has four modules:

- `ClusterWord` (`cluster_word.dfy`) is the word and its decoder. It proves
  that the seven decoded layers depend on bits 0..27 of the word and on
  nothing else.
- `LayerStats` (`layer_stats.dfy`) holds the reference statistics over a
  sequence of layer values: the nonzero values, their sum, maximum and
  minimum, and the sequence with one occurrence of a value removed. It also
  holds the lemmas about them.
- `FloatValue` (`float_value.dfy`) gives the outcomes of the final
  single-precision division: a finite number, NaN, or an infinity.
- `Common` (`common.dfy`) holds two things:
  - `AverageClusterSize`, a method with the source's loop and accumulators,
    proved equal to the reference definition `TruncatedMean` of the decoded
    layers;
  - the properties of `TruncatedMean`.

Proved properties:

- A word with no cluster on its seven layers (bits 0..27 clear) gives 0,
  and no other word does.
- Bits 28..31 never change the result.
- Exactly one cluster gives NaN, because the source computes `0.0f / 0`.
  The result is never infinite.
- Two clusters give the smaller of the two.
- Two or more clusters give a finite value between the smallest and the
  largest cluster size.
- The totals that the loop accumulates stay within 15 per cluster.

## Model

| member | source | states |
|---|---|---|
| Common.AverageClusterSize | inc/Common.h:109-129 | the value returned by the loop over the seven layers, with its count, sum and maximum accumulators, is exactly `TruncatedMean` of the decoded layers (0 with no cluster, otherwise the mean after one maximum is discarded) |
| Common.NextLayer | inc/Common.h:114-122 | one iteration for layer `l` adds one to the count exactly when the layer is nonzero, adds its value to the sum, and raises the maximum to it when it is larger; these are the loop invariants' step |
| Common.TruncatedMeanFromTotals | inc/Common.h:124-128 | with at least one cluster, the reference statistic equals `(sum - max) / (count - 1)` formed from the accumulated totals |
| Common.MeanWithoutMax | inc/Common.h:127-128 | the mean of the cluster sizes with one maximum removed is the sum minus the maximum over the count minus one |
| Common.Mean | inc/Common.h:128 | the mean of a list of values is NaN exactly when the list is empty and a finite number otherwise |
| Common.SizesWithin | inc/Common.h:115-116 | every cluster size that takes part in the statistic lies in 1..15 |
| Common.TotalsBounds | inc/Common.h:111-122 | count is at most the number of layers; max <= 15; max <= sum <= 15 * count; with a cluster, 0 <= sum - max <= 15 * (count - 1) |
| Common.NoClusters | inc/Common.h:116-126 | the early return for no clusters is taken exactly when every layer value is zero |
| Common.UndefinedIffSingleCluster | inc/Common.h:124-128 | the result is NaN exactly when one layer has a cluster, and finite in every other case (never infinite) |
| Common.MeanBetween | inc/Common.h:128 | the mean of a nonempty list whose values lie within bounds is finite and lies within the same bounds |
| Common.MeanWithinRange | inc/Common.h:124-128 | with two or more clusters the result is finite and lies between the smallest and the largest cluster size |
| Common.MeanOfOne | inc/Common.h:128 | the mean of a single value is that value |
| Common.TwoClusters | inc/Common.h:124-128 | with exactly two clusters `a` and `b` the result is `min(a, b)` exactly |
| Common.ZeroIffNoClusters | inc/Common.h:109-129 | the result is 0 exactly when bits 0..27 of the word are all clear |
| Common.HighBitsIgnored | inc/Common.h:114-115 | two words that agree on bits 0..27 give the same result |
| ClusterWord.Nibble | inc/Common.h:115 | layer `l`'s field `(w >> 4l) & 0xF` is below 16 |
| ClusterWord.Layers | inc/Common.h:114-115 | the decoder yields seven values, each below 16 |
| ClusterWord.LowBitsAreLayers | inc/Common.h:114-115 | two words agree on their low `4n` bits exactly when they agree on every layer below `n` |
| ClusterWord.LayerBitsBound | inc/Common.h:114 | the seven four-bit fields cover bits 0..27 (2^28) |
| ClusterWord.LayersEqual | inc/Common.h:114-115 | two words decode alike exactly when every field agrees |
| ClusterWord.LayersDetermineLowBits | inc/Common.h:114-115 | two words decode alike exactly when they agree on bits 0..27 |
| ClusterWord.AllLayersEmpty | inc/Common.h:114-116 | every layer reads zero exactly when bits 0..27 are clear |
| LayerStats.Nonzero | inc/Common.h:116 | the filter for `clsize > 0` keeps only positive values and never more values than layers |
| LayerStats.NonzeroMembers | inc/Common.h:116 | a value is kept by the filter exactly when it occurs among the layers and is positive |
| LayerStats.Max | inc/Common.h:119-121 | the running maximum, started at 0, bounds every value and is 0 for no values |
| LayerStats.Min | inc/Common.h:127-128 | the smallest value of a nonempty list bounds every value from below and is one of them; it is the lower bound of the result in `MeanWithinRange` |
| LayerStats.MaxIsMember | inc/Common.h:119-121 | the maximum of a nonempty list is one of its values |
| LayerStats.RemoveOne | inc/Common.h:127-128 | discarding one occurrence of a present value leaves one value fewer; an absent value changes nothing |
| LayerStats.RemoveOneMultiset | inc/Common.h:127-128 | discarding takes exactly one copy of the value off the multiset of values |
| LayerStats.Snoc | inc/Common.h:114-122 | one more layer extends the filter by its value when positive, adds it to the sum, and raises the maximum to it when it is larger |
| LayerStats.SumAppend | inc/Common.h:118 | the sum of two lists one after the other is the sum of their sums |
| LayerStats.SumRemoveOne | inc/Common.h:127 | discarding one occurrence of `x` takes `x` off the sum |
| LayerStats.RemoveMax | inc/Common.h:127-128 | discarding the maximum leaves `count - 1` values that sum to `sum - max` |
| LayerStats.RemoveMaxOfTwo | inc/Common.h:127-128 | of two values, discarding the larger leaves the smaller |
| LayerStats.SumBetween | inc/Common.h:118 | a sum lies between the length times a lower bound and the length times an upper bound of the values |
| LayerStats.RemoveOneWithin | inc/Common.h:127-128 | the values left after discarding one stay within the bounds of the original values |
| LayerStats.SumWithoutMax | inc/Common.h:127 | `(count - 1) * lo <= sum - max <= (count - 1) * hi` for values within `lo..hi` |
| LayerStats.MaxAtMostSum | inc/Common.h:118-121 | the maximum is at most the sum |
| FloatValue.Divide | inc/Common.h:128 | a float division is finite exactly for a nonzero divisor; 0 / 0 is NaN; a positive numerator over zero is +infinity |

## Left out

- The energy-loss curves `bb`, `bbHe3`, `bbH3` and `bbHe4`, the `nsigma` discriminants, and the impact-parameter cut and normalisation functions of `inc/Common.h`. They are floating-point expressions built on `sqrt`, `pow` and `log` with fitted constants, and there is nothing discrete to prove about them.
- The configuration constants of `inc/Common.h` (file names, binning tables, cut catalogues) and the ROOT headers it includes. `inc/Common.h` is the only source file of this model.
- Common.AverageClusterSize: the final single-precision division is modelled as an exact rational quotient. The rounding of that quotient to the nearest `float` is not modelled.
- Common.AverageClusterSize: the `float` accumulator `sum` is modelled as an integer. It holds at most 7 * 15 = 105, which a `float` represents exactly, so nothing is lost.
- FloatValue.Divide: only a `+0` divisor is modelled for division by zero. The divisor `nclusters - 1` is an `int` converted to `float`, so it is never `-0`. `NegInf` is kept for completeness, and `UndefinedIffSingleCluster` shows that no word reaches it.
- ClusterWord.Nibble: the shift and mask are written as division by a power of two and remainder by 16. For an unsigned operand these are the same operations. The bit-vector form is not used.
