# Blended distillation profile builder — Dafny model

This project models the core of `BlendedProfileBuilder` (`profile_builder.py`). The builder
computes the distillation profile of a blend of two crude oils: the temperatures at which the
blend reaches fixed recovery percentages. It works from each oil's measured profile and the two
volume shares. The model covers:

- the constructor's share check;
- the cleaning of a profile's rows from the cached table (rows of one code, `IBP` read as
  recovery 0, rows without a temperature dropped);
- the integer temperature grids, one per profile and one joint grid per pair;
- the merge of two sampled interpolations onto the joint grid: an index join, then a forward
  fill, then a zero fill;
- the blended recovery column `share1 * recovery + share2 * recovery_2`;
- the result table of the twelve percentiles 5, 10, 20, …, 95, 99, where each percentile above
  the blend's recovery maximum has an undefined temperature;
- `run`, which puts these steps together.

Modules, one per file:

| module | file | content |
|---|---|---|
| `Wrappers` | `wrappers.dfy` | `Option` (also NaN) and `Result` (also a raised exception) |
| `Ordering` | `ordering.dfy` | nondecreasing and strictly increasing columns |
| `TemperatureGrid` | `temperature_grid.dfy` | `math.ceil`/`math.floor`, `np.arange`, NaN-aware column extremes, builtin `min`/`max` with NaN, both grids |
| `ProfileLoading` | `profile_loading.dfy` | row cleaning of `load_processed_profile`, with the in-place steps on a `ProfileFrame` object |
| `RangeMerge` | `range_merge.dfy` | the join, forward fill and zero fill, as a loop proved against a recursive specification |
| `BlendEngine` | `blend_engine.dfy` | the blended column (a `PairFrame` object gains it in place), the percentile table and the cap (a `BlendedFrame` object whose temperatures are overwritten) |
| `ProfileBuilder` | `profile_builder.dfy` | the constructor, sampling of each interpolation on its grid, `compute_blended_profile` and `run` |

Conventions:

- Temperatures, recoveries and shares are mathematical reals.
- A NaN is `None`. This covers the minimum or maximum of an empty column, a cell the join left
  empty, a temperature set to NaN, and a recovery maximum built from a NaN.
- Every comparison with NaN is false, so Python's builtin `min(a, b)` and `max(a, b)` are modelled
  as written. A NaN first argument wins; a NaN second argument is ignored.
- `math.ceil` or `math.floor` of NaN raises `ValueError`. In the model, that grid is `None`.
- The three PCHIP interpolants are function parameters: `fit1` and `fit2` (recovery as a function
  of temperature) and `inverse` (temperature as a function of blended recovery).
- Of scipy, the model keeps only the check `pchip` makes on its abscissae: at least two values,
  strictly increasing, otherwise `ValueError`. This is `PchipAccepts`.

Behaviour of `profile_builder.py` worth knowing:

- Errors. Every failure the model covers is a `ValueError`, in three modelled cases: a share
  outside (0, 1) (profile_builder.py:24), an oil code with no rows, through `math.ceil` of the NaN
  minimum (profile_builder.py:91), and abscissae that `pchip` refuses (profile_builder.py:119,
  146). The model names them `ShareOutOfRange`, `UndefinedBound` and `InterpolationInput`. The
  casts at profile_builder.py:81-82 also raise `ValueError` on a cell that does not parse; that
  case is under "## Left out".
- The inverse fit. `pchip` raises `ValueError` whenever the blended column is not strictly
  increasing (profile_builder.py:146), not only when fewer than two distinct values remain. A flat
  stretch is enough, for example between two disjoint temperature ranges, where the zero fill and
  the forward fill leave both recovery columns constant.
- The joint grid (profile_builder.py:99-101) is symmetric in the two profiles only when both are
  nonempty. With an empty second profile, the builtin `min`/`max` ignore its NaN extremes and the
  grid is the first profile's. With an empty first profile, the NaN propagates and `math.ceil`
  raises (`GlobalTemperatureRange`).

## Model

| member | source | states |
|---|---|---|
| `TemperatureGrid.Floor` | profile_builder.py:92 | `math.floor`: the integer at or below `x` and above `x - 1` |
| `TemperatureGrid.Ceil` | profile_builder.py:91 | `math.ceil`: the integer at or above `x` and below `x + 1` |
| `TemperatureGrid.Arange` | profile_builder.py:91-92 | `np.arange(lo, hi, 1)` has `hi - lo` entries (none when `lo >= hi`) and entry `i` is `lo + i` |
| `TemperatureGrid.ColumnMin` | profile_builder.py:91 | `Series.min()`: NaN exactly for an empty column, otherwise an element not above any element |
| `TemperatureGrid.ColumnMax` | profile_builder.py:92 | `Series.max()`: NaN exactly for an empty column, otherwise an element not below any element |
| `TemperatureGrid.PyMin` | profile_builder.py:99 | builtin `min` with NaN: a NaN first argument gives NaN, a NaN second argument is ignored, two numbers give the smaller |
| `TemperatureGrid.PyMax` | profile_builder.py:100 | builtin `max` with NaN: the same rules, giving the larger |
| `TemperatureGrid.IntegerRange` | profile_builder.py:101 | `np.arange(math.ceil(lo), math.floor(hi), 1)`: fails exactly when a bound is NaN; otherwise the consecutive integers from `ceil(lo)`, `floor(hi) - ceil(lo)` of them (none when `ceil(lo) >= floor(hi)`) |
| `TemperatureGrid.IntegerRangeMembers` | profile_builder.py:101 | `t` is on `arange(ceil(lo), floor(hi))` iff `lo <= t` and `t + 1 <= hi`, so `floor(hi)` is always excluded |
| `TemperatureGrid.DiscreteTemperatureRange` | profile_builder.py:87-92 | the per-profile grid fails exactly on an empty column; otherwise it is the consecutive integers from `ceil(min)` to `floor(max) - 1`, empty when `ceil(min) >= floor(max)` |
| `TemperatureGrid.DiscreteRangeMembers` | profile_builder.py:91-92 | `t` is on a profile's grid iff some observed temperature is `<= t` and some is `>= t + 1` |
| `TemperatureGrid.GlobalTemperatureRange` | profile_builder.py:95-101 | the joint grid fails exactly when the first column is empty, and is the first profile's grid when only the second is empty |
| `TemperatureGrid.GlobalRangeIsRangeOfUnion` | profile_builder.py:99-101 | for two nonempty columns the joint grid is the grid of both columns taken together |
| `TemperatureGrid.GlobalRangeBounds` | profile_builder.py:99-101 | the joint grid is the consecutive integers from `ceil(min(min1, min2))` up to, excluding, `floor(max(max1, max2))` |
| `TemperatureGrid.GlobalRangeContainsEach` | profile_builder.py:91-92 | each profile's own grid is contained in the joint grid |
| `TemperatureGrid.GlobalRangeSymmetric` | profile_builder.py:99-101 | for nonempty columns, swapping the profiles leaves the joint grid unchanged |
| `ProfileLoading.RecoveryZeroAtIbp` | profile_builder.py:74 | the recovery cell `IBP` becomes `0`; any other recovery, the temperature and the code are kept |
| `ProfileLoading.SelectCode` | profile_builder.py:70 | a row is kept iff it is a table row of the requested code |
| `ProfileLoading.WithIbpAsZero` | profile_builder.py:74 | row by row, each row relabelled: an `IBP` recovery becomes `0`, every other cell is unchanged |
| `ProfileLoading.WithoutBlankTemperatures` | profile_builder.py:77-78 | a row is kept iff it is a given row whose temperature is not `-` |
| `ProfileLoading.CleanRows` | profile_builder.py:69-78 | every cleaned row has the code, a temperature and no `IBP` label |
| `ProfileLoading.CleaningStepsAreCleanRows` | profile_builder.py:70-78 | select, relabel and drop, in the source's order, equal the one-pass cleaning, order included |
| `ProfileLoading.CleanRowsMembers` | profile_builder.py:69-78 | a row is in the cleaned profile iff it is the relabelled form of a table row with that code and a temperature |
| `ProfileLoading.ProfileFrame.SetIbpToZero` | profile_builder.py:74 | the frame's rows become the relabelled rows |
| `ProfileLoading.ProfileFrame.DropBlankTemperatures` | profile_builder.py:77-78 | the frame loses exactly its `-` rows |
| `ProfileLoading.LoadProcessedProfile` | profile_builder.py:60-84 | the three in-place steps yield the one-pass cleaning, and its rows are exactly the relabelled qualifying table rows |
| `RangeMerge.Merged` | profile_builder.py:130-134 | the merged frame has one row per grid temperature |
| `RangeMerge.Filled` | profile_builder.py:132-133 | a merged cell is the curve's own sample where the join found one, and 0 (the zero fill) when the curve has no sample at that row or any earlier one |
| `RangeMerge.MergeInterpolationsOverRange` | profile_builder.py:126-134 | the loop yields the merged frame: grid order, the forward-filled and zero-filled cell for each curve, and every sample unchanged where a curve has one |
| `RangeMerge.FilledFromNearestSample` | profile_builder.py:133 | a row with no sample of its own holds the nearest earlier sample |
| `RangeMerge.FilledIsZeroOrSampleAbove` | profile_builder.py:133 | every merged cell is 0 or a sample from that row or an earlier one, so none is missing |
| `RangeMerge.FilledNondecreasing` | profile_builder.py:133 | on an increasing grid, a nonnegative nondecreasing curve gives a nondecreasing merged column |
| `RangeMerge.MergedColumnsNondecreasing` | profile_builder.py:130-134 | both merged columns are then nondecreasing |
| `RangeMerge.MergedColumnShape` | profile_builder.py:130-134 | a curve on `lo .. hi-1` merged onto a covering consecutive grid: zeros before `lo`, its samples, then the sample at `hi - 1` repeated |
| `BlendEngine.BlendColumn` | profile_builder.py:142 | one blended value per merged row |
| `BlendEngine.BlendNondecreasing` | profile_builder.py:142 | nonnegative shares and nondecreasing columns give a nondecreasing blend |
| `BlendEngine.BlendStrictlyIncreasing` | profile_builder.py:142-146 | with positive shares the blend strictly increases iff at every step one of the columns strictly increases, which is what the inverse fit requires |
| `BlendEngine.BlendBetweenRecoveries` | profile_builder.py:142 | with shares summing to 1, each blended value lies between the two recoveries |
| `BlendEngine.BlendSymmetric` | profile_builder.py:142 | exchanging the two liquids and their shares leaves the blend unchanged |
| `BlendEngine.PairFrame.AddBlendedColumn` | profile_builder.py:142 | the merged frame gains the `blended` column `share1 * recovery + share2 * recovery_2`; its rows are unchanged |
| `BlendEngine.ProfilePercentagesAscending` | profile_builder.py:27 | twelve percentiles, strictly ascending |
| `BlendEngine.InverseAt` | profile_builder.py:147 | one inverse-interpolant temperature per percentile |
| `BlendEngine.RecoveryMax` | profile_builder.py:153 | `max1 * share1 + max2 * share2`: NaN exactly when either recovery maximum is NaN; with nonnegative shares summing to 1 it lies between the two maxima |
| `BlendEngine.AboveMax` | profile_builder.py:154 | `recovery > recovery_max` is false against a NaN maximum |
| `BlendEngine.CappedTemperatures` | profile_builder.py:153-155 | one temperature per percentile after the cap |
| `BlendEngine.BlendedFrame.SetUndefinedAbove` | profile_builder.py:154-155 | the percentiles stay; the temperature column becomes the capped one |
| `BlendEngine.ProfileTemperatures` | profile_builder.py:147-155 | twelve reported temperatures |
| `BlendEngine.ProfileTemperaturesAt` | profile_builder.py:147-155 | percentile `p` is undefined iff `p > recovery_max`; otherwise its temperature is the inverse interpolant at `p` |
| `BlendEngine.UndefinedFormSuffix` | profile_builder.py:149-155 | the undefined entries form a suffix of the table |
| `BlendEngine.EqualSharesCapExample` | profile_builder.py:153-155 | shares 0.5/0.5 and maxima 95/90 give `recovery_max` 92.5; exactly the 95 and 99 percentiles are undefined |
| `ProfileBuilder.NewBuilder` | profile_builder.py:24-32 | raises exactly when a share is `<= 0` or `>= 1`; otherwise keeps codes, shares and the twelve percentiles |
| `ProfileBuilder.Temperatures` | profile_builder.py:114 | the temperature column has one entry per row |
| `ProfileBuilder.Recoveries` | profile_builder.py:153 | the recovery column, one real per row, whose maximum `recovery_max` uses |
| `ProfileBuilder.PchipAccepts` | profile_builder.py:119 | scipy accepts the abscissae iff there are at least two and each is below every later one (no value repeats); the same check guards line 146 |
| `ProfileBuilder.RecoveryInterpolation` | profile_builder.py:103-123 | fails on an empty profile at the grid and otherwise exactly when `pchip` refuses the temperatures; on success it is indexed by exactly the profile's grid and holds the interpolant's value at each point |
| `ProfileBuilder.RecoveryInterpolationNondecreasing` | profile_builder.py:117-121 | grid points lie within the observed range, so an interpolant that is nonnegative and nondecreasing there gives such a sampled curve |
| `ProfileBuilder.LoadedProfile` | profile_builder.py:168-169 | one loaded observation per cleaned row |
| `ProfileBuilder.PairedRecovery` | profile_builder.py:170-176 | succeeds iff `pchip` accepts both temperature columns; then it is the merge of both sampled curves over the joint grid |
| `ProfileBuilder.BlendedRecoveryNondecreasing` | profile_builder.py:117-142 | nonnegative, nondecreasing interpolants and nonnegative shares give a nondecreasing blended column over the joint grid |
| `ProfileBuilder.ComputeBlendedProfile` | profile_builder.py:136-157 | adds the blended column; fails iff `pchip` refuses it; otherwise a new table of the builder's percentiles whose temperatures are the inverse values with those above `max1*share1 + max2*share2` undefined |
| `ProfileBuilder.Run` | profile_builder.py:159-180 | loads, interpolates, merges and blends: the first interpolation failure is returned; otherwise the result is the blended table of the previous row, computed with the builder's volumes |
| `ProfileBuilder.BuiltProfileTemperatures` | profile_builder.py:147-155 | for a builder made by the constructor, the temperature column `Run` returns is undefined at percentile `p` iff `p > recovery_max`, is the inverse value otherwise, and its undefined entries form a suffix |

## Left out

- PCHIP fitting and evaluation (`scipy.interpolate.pchip`, profile_builder.py:119-121, 146-147). These are floating-point numerics in a foreign library. They are the parameters `fit1`, `fit2` and `inverse`. Nothing ties `inverse` to the blended column it is fitted to, and the fits being nondecreasing (`NondecreasingOn`) and nonnegative (`NonnegativeOn`, which the zero fill needs for the merged column to stay nondecreasing) over the observed temperatures is only assumed, as a precondition of `RecoveryInterpolationNondecreasing` and `BlendedRecoveryNondecreasing`.
- `extract_profiles_from_web` (profile_builder.py:35-57) and the `refresh` branch of `run` (profile_builder.py:164-165): network scraping and CSV writing. `refresh` is kept in `Builder` but has no effect.
- Reading the CSV cache (profile_builder.py:66). The table is a parameter of `Run`, already restricted to the three renamed columns of profile_builder.py:69-71.
- The `int`/`float64` casts (profile_builder.py:81-82). They are the parameter `cast`, and a cell that does not parse is not modelled.
- ProfileLoading.WithIbpAsZero: writes the text `"0"` where pandas writes the integer 0. The two are equal after the cast.
- The interactive prompt loop and the volume normalisation of `__main__` (profile_builder.py:182-234): user I/O.
- profile_generator_test.py and profile_builder_test.py: batch scripts and a test that read and write the on-disk cache.
- IEEE rounding, infinities and NaN arithmetic beyond the cases above. Reals are exact.
- In-place aliasing of DataFrames. `MergeInterpolationsOverRange` returns the merged rows as a value, and `Run` wraps them in the `PairFrame` that `ComputeBlendedProfile` extends.
