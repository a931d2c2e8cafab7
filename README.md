# AEMO bid/offer curves — a Dafny model

This project models the computational core of a small analysis package for
the Australian electricity market (AEMO). The package's main routine turns
the market's bid/offer rows into supply and demand curves, one pair per
trading date and interval:

- `build_offer_supply_curves` builds one pair per (trading date, interval
  number).
- Offers become a supply curve and bids a demand curve.
- Each curve is a list of `[cumulative_quantity, price]` points.

Two smaller helper groups are also modelled:

- The forecasting helpers of `model.py`: the train/test split at a date and
  the error of the persistence baseline.
- The helpers of `embedding.py`: Bernoulli subsampling of a list, and the
  price offset applied before two curves are compared by their Wasserstein
  distance.

Files:

- `seqs.dfy` (module `Seqs`): order-keeping filters (boolean masks),
  subsequences, sums, absolute values and the minimum of a list. Also `Option`.
- `sorting.dfy` (module `Sorting`): a generic insertion sort and the
  sorted, duplicate-free list of the values of a sequence (`np.sort(x.unique())`).
  The proofs show that the sort permutes and sorts, and that a sorted
  permutation is unique under an antisymmetric order.
- `curve_builder.dfy` (module `DataExtraction`): the rows, the per-interval
  pipeline, and the method `BuildOfferSupplyCurves` with its loops.
  - The pipeline is filter → sort by price → cumulative sum → group-by-price
    min and max → concatenate → sort on (price, cumulative quantity).
  - The method fills the nested dictionary with two `for` loops.
- `curve_properties.dfy` (module `CurveProperties`): what the emitted
  curves satisfy:
  - point counts, the layout of the price tiers, and price monotonicity;
  - tier maxima as prefix sums, and that tiers do not overlap;
  - the total quantity carried by the last tier;
  - which rows an entry depends on.
- `model.dfy` (module `Model`): `get_train_test_split` and
  `compute_baseline_mae`.
- `embedding.dfy` (module `Embedding`): `subsample_list` and the price
  offset of `wasserstein_distance`.

A supply curve is built by the direction `Ascending`, a demand curve by
`Descending`. Each property is stated once for both directions.

Three behaviours of the code are worth stating up front:

- **Empty side.** The code does not raise when an interval has no offers
  or no bids; it emits an empty curve for that side. A side's curve is
  empty exactly when it has no rows (`CurveProperties.EmptyCurve`), and
  those rows are exactly the day's and interval's rows with that side's
  label (`CurveProperties.CurvesUseSelectedRows`).
- **Demand ordering.** The code sorts the demand points descending on both
  price and cumulative quantity, so inside each price tier the larger
  quantity comes first and the curve steps back down. Cumulative quantity
  is therefore not monotone along a demand curve
  (`CurveProperties.DemandShape`).
- **No clearing point.** The code computes no intersection of the supply
  and demand curves, and the model has none.

## Model

| member | source | states |
|---|---|---|
| DataExtraction.BuildOfferSupplyCurves | aemo/data_extraction.py:32-67 | the outer keys are exactly the trading dates of the table; every day's inner keys are exactly the interval numbers of the whole table; each entry is the curve pair of that day's rows at that interval |
| DataExtraction.FillDay | aemo/data_extraction.py:40-65 | the inner loop stores one entry per interval number listed, each being the curve pair of the day's rows at that interval |
| DataExtraction.UniqueSorted | aemo/data_extraction.py:35 | `np.sort(x.unique())` holds exactly the values of the column, strictly ascending |
| DataExtraction.SortByPriceSpec | aemo/data_extraction.py:46-47 | a side's sorted rows are a permutation of its rows, ordered by ascending price for offers and descending price for bids |
| DataExtraction.CumSum | aemo/data_extraction.py:50-51 | the cumulative column has one point per row, carrying that row's price |
| DataExtraction.CumSumAt | aemo/data_extraction.py:50-51 | point i carries the sum of the first i + 1 quantities |
| DataExtraction.AggregateSpec | aemo/data_extraction.py:54 | the group-by min (max) at a price is a cumulative quantity recorded at that price and is no larger (no smaller) than any quantity recorded there |
| DataExtraction.GroupKeys | aemo/data_extraction.py:54 | the group keys are exactly the prices present, ascending, each once |
| DataExtraction.GroupOver | aemo/data_extraction.py:54 | the grouped frame has one row per key, in key order, holding the key's aggregate |
| DataExtraction.DiscretiseSorted | aemo/data_extraction.py:54-56 | the discretised curve is a permutation of the min rows followed by the max rows, sorted on (price, cumulative quantity) ascending for supply and descending for demand |
| Sorting.InsertionSortSpec | aemo/data_extraction.py:46-47 | sorting under a total preorder yields a sorted permutation of the input |
| Sorting.SortedPermutationUnique | aemo/data_extraction.py:54-56 | two sorted permutations of the same points under an antisymmetric total order are equal, so the final sort's result does not depend on the order of its input |
| Sorting.SortedDistinct | aemo/data_extraction.py:35 | the result holds exactly the values of the input, sorted under the given total order and without repeats |
| Seqs.Filter | aemo/data_extraction.py:37-47 | a boolean mask keeps exactly the rows satisfying it and is never longer than the table |
| CurveProperties.CurveLength | aemo/data_extraction.py:54-56 | a side's curve has exactly two points per distinct price of that side's rows |
| CurveProperties.CurveTier | aemo/data_extraction.py:54-56 | points 2k and 2k + 1 are the k-th price tier in the side's order, at one of the side's prices: (min, max) of the cumulative quantity for supply, (max, min) for demand |
| CurveProperties.CurvePricesMonotone | aemo/data_extraction.py:54-56 | prices never decrease along the supply curve and never increase along the demand curve |
| CurveProperties.TierMaxIsCumulativeTotal | aemo/data_extraction.py:46-56 | with non-negative quantities, the largest cumulative quantity at price p is the total of the side's quantities priced at most p (supply) or at least p (demand), whatever the order among equal prices |
| CurveProperties.TierMaxAnyTieOrder | aemo/data_extraction.py:46-56 | with non-negative quantities, for every price-sorted arrangement of the side's rows (any order among equal prices) the largest cumulative quantity at p is the total of the quantities up to p in the side's order |
| CurveProperties.NegativeQuantityTierMaxDependsOnOrder | aemo/data_extraction.py:46-54 | two offers at one price with quantities 5 and -3 are price-sorted in either order, and give a tier maximum of 5 in one and 2 in the other |
| CurveProperties.TierMinAtMostMax | aemo/data_extraction.py:54-56 | in every tier the min point's quantity is at most the max point's |
| CurveProperties.CumTiersOrdered | aemo/data_extraction.py:50-56 | with non-negative quantities, a tier's smallest cumulative quantity is no smaller than the largest of any tier earlier in the side's order |
| CurveProperties.AscendingRises | aemo/data_extraction.py:54 | with non-overlapping tiers, the quantity never decreases along the discretised supply curve |
| CurveProperties.DescendingSteps | aemo/data_extraction.py:56 | with non-overlapping tiers, each demand tier steps down from its larger to its smaller quantity and ends no lower than the previous tier started |
| CurveProperties.SupplyCumulativeNonDecreasing | aemo/data_extraction.py:46-54 | with non-negative quantities, the supply curve's cumulative quantity never decreases, and its last point carries the total offered quantity |
| CurveProperties.DemandShape | aemo/data_extraction.py:47-56 | with non-negative quantities, inside each demand tier the larger quantity comes first, each tier ends no lower than the previous one started, and the last tier's first point carries the total bid quantity |
| CurveProperties.LastTierCarriesTotal | aemo/data_extraction.py:50-56 | with non-negative quantities, for a non-empty side, the last tier's max point (the last point for supply, the last but one for demand) holds the side's total quantity |
| CurveProperties.CurvePointsComeFromCumSum | aemo/data_extraction.py:50-60 | every emitted point is a point of the side's cumulative sum, and its price is one of the side's input prices |
| CurveProperties.SingleRowTierRepeatsPoint | aemo/data_extraction.py:54-56 | a price held by a single row yields a tier whose min and max points coincide |
| CurveProperties.TotalPermutation | aemo/data_extraction.py:50-51 | the total quantity of a set of rows does not depend on their order |
| CurveProperties.CurvesUseSelectedRows | aemo/data_extraction.py:37-47 | the supply curve of (day, interval) is built from exactly that day's and interval's rows labelled "Offer", and the demand curve from those labelled "Bid" |
| CurveProperties.UnrelatedRowIgnored | aemo/data_extraction.py:37-47 | a row of another day, another interval or another side label leaves the entry of (day, interval) unchanged |
| CurveProperties.EmptyIntervalCurves | aemo/data_extraction.py:40-65 | an interval gets two empty curves exactly when the day has no "Offer" and no "Bid" row there; it is never an error |
| CurveProperties.EmptyCurve | aemo/data_extraction.py:46-60 | a side's curve is empty exactly when the side has no rows |
| Model.TrainRows | aemo/model.py:30 | a row is a training row exactly when it is in the table and dated before the test date |
| Model.TestRows | aemo/model.py:31 | a row is a test row exactly when it is in the table and dated on or after the test date |
| Model.SplitPartitions | aemo/model.py:30-31 | training and test rows together are exactly the table's rows, each once, and their counts add up to the table's |
| Model.SplitKeepsOrder | aemo/model.py:30-31 | both parts keep the table's row order |
| Model.Table | aemo/model.py:33-37 | selecting columns yields one array row per frame row, holding that row's cells of the selected columns in their given order |
| Model.TrainTestSplit | aemo/model.py:28-39 | the split exists exactly when all feature and target columns exist; each of the four arrays is the given columns of the training or test rows, with feature row k and target row k taken from the same frame row |
| Model.DateFeatureIsSplitDate | aemo/model.py:30-33 | a `date` feature column holds, in training row k, the date of the k-th training row, which is before the test date |
| Model.DateColumnAlwaysSelectable | aemo/model.py:30-33 | every frame has a `date` column, so selecting it as feature and target succeeds, and the training features are the training rows' dates |
| Model.AbsDiffs | aemo/model.py:46 | element i is the absolute difference of the two inputs' elements i |
| Model.BaselineDefined | aemo/model.py:42-47 | the error exists exactly when the shift is forward and the series is longer than the shift, or the shift is backward and the series is not empty; a zero shift never yields one |
| Model.BaselinePairs | aemo/model.py:43-45 | for shift_days >= 1 both slices have `len(data) - 48 * shift_days` elements (or none), and prediction i is `data[i]` against actual `data[i + shift]` |
| Model.BaselineBackwardPairs | aemo/model.py:43-45 | for a negative shift both slices have `min(len(data), -shift)` elements, the head of the series against its tail |
| Model.MeanNonNegative | aemo/model.py:46 | the mean of non-negative terms is non-negative, and zero exactly when every term is |
| Model.BaselineZeroIffPeriodic | aemo/model.py:42-47 | for shift_days >= 1 and a series longer than the shift, the error exists, is non-negative, and is zero exactly when the series repeats after `48 * shift_days` intervals |
| Model.BaselineNonNegative | aemo/model.py:46-47 | any baseline error that exists is non-negative |
| Embedding.Subsample | aemo/embedding.py:7-12 | the subsample is never longer than the list |
| Embedding.SubsampleSelects | aemo/embedding.py:11 | item i is kept exactly when draw i is below the probability, and the kept items keep their order |
| Embedding.SubsampleNothing | aemo/embedding.py:11 | with draws in [0, 1), a probability of zero or less keeps nothing |
| Embedding.SubsampleEverything | aemo/embedding.py:11 | with draws in [0, 1), a probability of one or more keeps every item |
| Embedding.Quantities | aemo/embedding.py:37-38 | the quantity column has one element per point, holding that point's quantity |
| Embedding.JointMin | aemo/embedding.py:46 | the joint minimum is at most every price of both curves and is one of them |
| Embedding.Shifted | aemo/embedding.py:49-50 | every element is raised by the same amount |
| Embedding.WassersteinDistance | aemo/embedding.py:36-52 | there is no result when a curve is empty; otherwise the result is the distance applied to the unchanged quantity columns and the offset price columns |
| Embedding.WeightsNonNegative | aemo/embedding.py:46-50 | after the offset every weight is non-negative, and when the prices dipped below zero some weight is exactly zero |
| Embedding.WeightsKeepDifferences | aemo/embedding.py:46-52 | the offset keeps every difference between two prices, within a curve or across the two, and leaves non-negative prices unchanged |
| Embedding.WeightsSymmetric | aemo/embedding.py:46 | swapping the curves swaps the weights and keeps the offset |

## Left out

- `load_data` (CSV and parquet reading, console output, batching by year and month): file I/O, not modelled.
- `process_embedding_data`: float16 casts, trigonometric encodings, datetime parsing and pandas `shift` features. This is floating-point and library behaviour and is not part of this model.
- `plot_offer_supply_curves` and the plotting branches of `wasserstein_distance`: display only.
- Prices, quantities and series values are exact reals. Floating-point rounding, NaN and pandas dtypes are not modelled.
- DataExtraction.SortByPrice: pandas' `sort_values` leaves the order among equal prices unspecified. The model fixes it to input order (a stable sort). With non-negative quantities only a tier's min point depends on that order: `TierMaxAnyTieOrder` states the tier maxima for every price-sorted arrangement of the rows, and `TotalPermutation` states the total for any order. With a negative quantity the tier maximum depends on the order too (`NegativeQuantityTierMaxDependsOnOrder`). The other curve facts are proved for the stable order only.
- DataExtraction.BuildOfferSupplyCurves: the source fills both dictionaries in ascending date and interval order, and Python dictionaries keep that insertion order. A Dafny `map` has no order, so the key order of the result is not modelled; only the key sets and the entries are.
- DataExtraction.Row: the side label is a string, and only the exact labels "Offer" and "Bid" are selected, as in the code. Trading dates are day numbers.
- Embedding.Subsample: Python's global generator and its seeding are replaced by the sequence of draws it would produce, one per item. The same seed means the same draws, so the same result follows because `Subsample` is a function.
- Embedding.WassersteinDistance: scipy's `wasserstein_distance` is a function-valued parameter. Its own properties (non-negativity, symmetry, zero on equal inputs) are not stated.
- Model.TrainTestSplit: the `date` column is the record's `date` field; every frame has it among its columns, and its cell holds that date as a number (`WellFormed`), so a `date` feature reads the split's own date (`DateFeatureIsSplitDate`). Datetime values are day numbers. A missing feature or target column (pandas' `KeyError`) is the `None` result.
- Model.BaselineMae: numpy's NaN mean of empty slices, and the broadcasting error for slices of different lengths, are both the `None` result.
- Model.BaselineMae: `data` is taken to be a one-dimensional numpy array, so `predictions - actuals` subtracts by position. If it were a pandas Series the subtraction would align on index labels instead, pairing each label with itself; that case is not modelled.
